// The index of API keys: APIKeyStore in internal/auth/apikeys.go. Every locked section is one method; Interleave is
// whatever other requests do between two of them.
module ApiKeys {
  import opened Text

  /** What the file says about the SHA-256 of a key. */
  datatype FileDigest = NoDigest | Unreadable | Digest(digest: int)

  /** An entry of the file; usable tells whether bcrypt can work on its key_hash. */
  datatype Entry = Entry(sha256: FileDigest, usable: bool)

  /** SHA-256, the HMAC that addresses the index, and whether bcrypt matches a key with the hash of an entry. */
  datatype Hashes = Hashes(sha: string -> int, keyed: int -> int, compare: (nat, string) -> bool)

  function Address(h: Hashes, key: string): int {
    h.keyed(h.sha(key))
  }

  predicate InFileOrder(s: seq<nat>) {
    forall i, j | 0 <= i < j < |s| :: s[i] < s[j]
  }

  // ---------------------------------------------------------------------------------------------
  // Loading
  // ---------------------------------------------------------------------------------------------

  /** Entries that are found through their digest, and entries that only bcrypt can find. */
  predicate ByDigest(keys: seq<Entry>, i: nat) {
    i < |keys| && keys[i].sha256.Digest?
  }

  predicate ByBcrypt(keys: seq<Entry>, i: nat) {
    i < |keys| && keys[i].sha256.NoDigest? && keys[i].usable
  }

  /** No unreadable digest, and no two entries at one address. */
  predicate Loadable(h: Hashes, keys: seq<Entry>) {
    && (forall i | 0 <= i < |keys| :: !keys[i].sha256.Unreadable?)
    && forall i, j | 0 <= i < j < |keys| && ByDigest(keys, i) && ByDigest(keys, j) ::
         h.keyed(keys[i].sha256.digest) != h.keyed(keys[j].sha256.digest)
  }

  /** unseen holds the first n entries that only bcrypt can find, in file order. */
  ghost predicate Collected(keys: seq<Entry>, unseen: seq<nat>, n: nat) {
    InFileOrder(unseen) && forall k: nat :: k in unseen <==> k < n && ByBcrypt(keys, k)
  }

  lemma CollectedNext(keys: seq<Entry>, unseen: seq<nat>, n: nat)
    requires Collected(keys, unseen, n)
    ensures Collected(keys, if ByBcrypt(keys, n) then unseen + [n] else unseen, n + 1)
  {
    assert forall k | 0 <= k < |unseen| :: unseen[k] in unseen;
  }

  /** index holds the first n entries that their digest finds. */
  ghost predicate Filled(h: Hashes, keys: seq<Entry>, index: map<int, nat>, n: nat) {
    && (forall at | at in index :: index[at] < n && ByDigest(keys, index[at]) && at == h.keyed(keys[index[at]].sha256.digest))
    && forall k: nat | k < n && ByDigest(keys, k) ::
         h.keyed(keys[k].sha256.digest) in index && index[h.keyed(keys[k].sha256.digest)] == k
  }

  /** NewAPIKeyStore fails exactly when the file is not loadable. */
  method NewAPIKeyStore(h: Hashes, keys: seq<Entry>) returns (r: Result<APIKeyStore>)
    ensures r.Ok? <==> Loadable(h, keys)
    ensures r.Ok? ==> fresh(r.value) && r.value.h == h && r.value.keys == keys && r.value.Valid()
    ensures r.Ok? ==> Filled(h, keys, r.value.index, |keys|) && Collected(keys, r.value.unseen, |keys|)
  {
    hide InFileOrder;
    var index: map<int, nat> := map[];
    var unseen: seq<nat> := [];
    assert Collected(keys, unseen, 0) by { NoneCollected(keys); }
    for i := 0 to |keys|
      invariant forall k | 0 <= k < i :: !keys[k].sha256.Unreadable?
      invariant Filled(h, keys, index, i) && Collected(keys, unseen, i)
    {
      CollectedNext(keys, unseen, i);
      match keys[i].sha256
      case Unreadable =>
        return Err;
      case Digest(digest) =>
        var at := h.keyed(digest);
        if at in index {
          return Err;
        }
        index := index[at := i];
      case NoDigest =>
        if keys[i].usable {
          unseen := unseen + [i];
        }
    }
    StartsValid(h, keys, index, unseen);
    var store := new APIKeyStore(h, keys, index, unseen);
    return Ok(store);
  }

  lemma NoneCollected(keys: seq<Entry>)
    ensures Collected(keys, [], 0)
  {
  }

  lemma StartsValid(h: Hashes, keys: seq<Entry>, index: map<int, nat>, unseen: seq<nat>)
    requires Filled(h, keys, index, |keys|) && Collected(keys, unseen, |keys|)
    ensures forall i: nat :: i in unseen || IndexedIn(index, i) <==> ByDigest(keys, i) || ByBcrypt(keys, i)
  {
    hide InFileOrder;
    forall i: nat | ByDigest(keys, i) ensures IndexedIn(index, i) {
      var at := h.keyed(keys[i].sha256.digest);
      assert at in index && index[at] == i;
    }
  }

  ghost predicate IndexedIn(index: map<int, nat>, i: nat) {
    exists at :: at in index && index[at] == i
  }

  class APIKeyStore {
    const h: Hashes
    const keys: seq<Entry>
    /** Positions in keys. */
    var index: map<int, nat>
    var unseen: seq<nat>

    constructor (h: Hashes, keys: seq<Entry>, index: map<int, nat>, unseen: seq<nat>)
      ensures this.h == h && this.keys == keys && this.index == index && this.unseen == unseen
    {
      this.h, this.keys, this.index, this.unseen := h, keys, index, unseen;
    }

    /** What made an entry stand at an address: its digest, or a key that bcrypt matched with it. */
    ghost predicate Genuine(at: int, i: nat) {
      || (ByDigest(keys, i) && at == h.keyed(keys[i].sha256.digest))
      || exists key :: Address(h, key) == at && h.compare(i, key)
    }

    /**
     * The entries that can be found at all are in the index, each at one address, or unseen, in file order; never both.
     */
    ghost predicate Valid()
      reads this
    {
      && (forall at, other | at in index && other in index && index[at] == index[other] :: at == other)
      && InFileOrder(unseen)
      && (forall at | at in index :: index[at] !in unseen)
      && (forall i: nat :: i in unseen || IndexedIn(index, i) <==> ByDigest(keys, i) || ByBcrypt(keys, i))
      && (forall i | i in unseen :: ByBcrypt(keys, i))
      && (forall at | at in index :: Genuine(at, index[at]))
    }

    /** Bindings are forever, and entries never become unseen again. */
    twostate predicate Grown()
      reads this
    {
      && (forall at | at in old(index) :: at in index && index[at] == old(index)[at])
      && forall i | i in unseen :: i in old(unseen)
    }

    /** lookup. */
    function Find(at: int): Option<nat>
      reads this
    {
      if at in index then Some(index[at]) else None
    }

    /** slices.Index; the length when i is not there. */
    method PositionOf(i: nat) returns (pos: nat)
      ensures pos <= |unseen| && i !in unseen[..pos] && (pos < |unseen| ==> unseen[pos] == i)
    {
      pos := 0;
      while pos < |unseen| && unseen[pos] != i
        invariant pos <= |unseen| && i !in unseen[..pos]
      {
        pos := pos + 1;
      }
    }

    /** remember: what stands at the address in the end, or nothing when the entry belongs to another key by now. */
    method Remember(i: nat, at: int) returns (r: Option<nat>)
      requires Valid() && Genuine(at, i)
      modifies this
      ensures Valid() && Grown()
      ensures r == if at in old(index) then Some(old(index)[at]) else if i in old(unseen) then Some(i) else None
      ensures r.Some? ==> Find(at) == r
      ensures r.None? ==> index == old(index) && unseen == old(unseen)
      ensures at !in old(index) && i in old(unseen) ==> i !in unseen && forall k | k in old(unseen) && k != i :: k in unseen
    {
      if at in index {
        return Some(index[at]);
      }
      var pos := PositionOf(i);
      if pos == |unseen| {
        assert unseen[..pos] == unseen;
        return None;
      }
      Moves(pos, at);
      unseen := unseen[..pos] + unseen[pos + 1..];
      index := index[at := i];
      assert forall k | k in unseen :: k in old(unseen);
      return Some(i);
    }

    lemma Moves(pos: nat, at: int)
      requires Valid() && pos < |unseen| && at !in index
      ensures var rest := unseen[..pos] + unseen[pos + 1..]; var grown := index[at := unseen[pos]];
              && InFileOrder(rest) && unseen[pos] !in rest
              && (forall k: nat :: k in unseen <==> k == unseen[pos] || k in rest)
              && (forall k: nat :: IndexedIn(grown, k) <==> k == unseen[pos] || IndexedIn(index, k))
    {
      var rest := unseen[..pos] + unseen[pos + 1..];
      assert unseen == unseen[..pos] + [unseen[pos]] + unseen[pos + 1..];
      assert forall k | 0 <= k < |rest| :: rest[k] == unseen[if k < pos then k else k + 1];
      var grown := index[at := unseen[pos]];
      assert at in grown && grown[at] == unseen[pos];
      forall k: nat ensures IndexedIn(grown, k) <==> k == unseen[pos] || IndexedIn(index, k) {
        if IndexedIn(index, k) {
          var a :| a in index && index[a] == k;
          assert a in grown && grown[a] == k;
        }
      }
    }

    /** Any number of other requests binding entries to keys that match them; none when alone. */
    method Interleave(alone: bool)
      requires Valid()
      modifies this
      ensures Valid() && Grown()
      ensures alone ==> index == old(index) && unseen == old(unseen)
    {
      hide Valid;
      var rounds: int := *;
      if alone || rounds < 0 {
        return;
      }
      for round := 0 to rounds
        invariant Valid() && Grown()
      {
        var key: string, i: int := *, *;
        if 0 <= i && h.compare(i, key) {
          var r := Remember(i, Address(h, key));
        }
      }
    }

    /** scan: the unseen entries in file order; an error when a comparison is refused. */
    method Scan(key: string, at: int, limited: bool, alone: bool) returns (r: Result<Option<nat>>)
      requires Valid() && at == Address(h, key)
      modifies this
      ensures Valid() && Grown() && (!limited ==> r.Ok?)
      ensures r.Ok? ==> r.value == Find(at)
      ensures at in old(index) ==> r == Ok(Some(old(index)[at]))
      ensures r.Ok? ==> (r.value == None && FirstMatch(h, old(unseen), key).Some? <==> r.value == None && Taken(old(unseen), key, at))
      ensures alone && r.Ok? ==> r.value == Answer(h, old(index), old(unseen), key)
    {
      hide Valid;
      var entries := unseen;
      assert entries[0..] == entries;
      for n := 0 to |entries|
        invariant Valid() && Grown() && (n > 0 ==> at !in old(index)) && FirstMatch(h, entries, key) == FirstMatch(h, entries[n..], key)
        invariant alone ==> index == old(index) && unseen == old(unseen)
      {
        Interleave(alone);
        if at in index {
          return Ok(Some(index[at]));
        }
        var i := entries[n];
        assert entries[n..][0] == i && entries[n..][1..] == entries[n + 1..];
        var refused: bool := *;
        if limited && refused {
          return Err;
        }
        if h.compare(i, key) {
          Interleave(alone);
          assert i in old(unseen) && FirstMatch(h, entries, key) == Some(i);
          StillKnown(i);
          var bound := Remember(i, at);
          return Ok(bound);
        }
      }
      Interleave(alone);
      assert entries[|entries|..] == [];
      return Ok(Find(at));
    }

    /** An entry that was unseen is unseen still, or stands in the index. */
    twostate lemma StillKnown(i: nat)
      requires old(Valid()) && Valid() && i in old(unseen)
      ensures i in unseen || IndexedIn(index, i)
    {
    }

    /** The first entry that matches was bound to another key in the meantime. */
    ghost predicate Taken(entries: seq<nat>, key: string, at: int)
      reads this
    {
      && FirstMatch(h, entries, key).Some?
      && exists other :: other in index && other != at && index[other] == FirstMatch(h, entries, key).value
    }

    /**
     * Verify. An error says that a comparison was refused, not that no entry matches. Undisturbed, the answer is the
     * index hit or else the first unseen entry in file order that matches. In company it is what stands at the key's
     * address in the end, unless the request was overtaken: mid and read are the index and the unseen entries at the
     * moment it asks whether any are left, entries those that it compares.
     */
    method Verify(key: string, limited: bool, alone: bool)
      returns (r: Result<Option<nat>>, ghost mid: map<int, nat>, ghost read: seq<nat>, ghost entries: seq<nat>)
      requires Valid()
      modifies this
      ensures Valid() && Grown() && (!limited ==> r.Ok?)
      ensures r.Ok? ==> r.value == if Overtaken(old(index), mid, read, Address(h, key)) then None else Find(Address(h, key))
      ensures r.Ok? && r.value.Some? ==> Genuine(Address(h, key), r.value.value)
      ensures Address(h, key) in old(index) ==> r == Ok(Some(old(index)[Address(h, key)]))
      ensures alone && r.Ok? ==> r.value == Answer(h, old(index), old(unseen), key)
      ensures r == Ok(None) ==> FirstMatch(h, entries, key) == None || Taken(entries, key, Address(h, key))
      ensures r == Ok(None) ==> forall i | i in old(unseen) && i !in entries :: IndexedIn(index, i)
      ensures (forall a | a in old(index) :: a in mid) && forall a | a in mid :: a in index && index[a] == mid[a]
      ensures forall i | i in read :: i in old(unseen)
      ensures alone ==> mid == old(index) && read == old(unseen)
    {
      hide Valid, Taken, Genuine;
      var at := Address(h, key);
      mid, read, entries := index, unseen, unseen;
      if at in index {
        Known(at);
        return Ok(Some(index[at])), mid, read, entries;
      }
      Interleave(alone);
      StillKnownAll();
      mid, read, entries := index, unseen, unseen;
      if |unseen| == 0 {
        return Ok(None), mid, read, entries;
      }
      Interleave(alone);
      StillKnownAll();
      entries := unseen;
      var refused: bool := *;
      if limited && refused {
        return Err, mid, read, entries;
      }
      ghost var before := index;
      r := Scan(key, at, limited, alone);
      if r.Ok? && r.value.Some? {
        Known(at);
      }
      StaysIndexed(before);
    }

    lemma Known(at: int)
      requires Valid() && at in index
      ensures Genuine(at, index[at])
    {
    }

    lemma StaysIndexed(before: map<int, nat>)
      requires forall at | at in before :: at in index && index[at] == before[at]
      ensures forall i | IndexedIn(before, i) :: IndexedIn(index, i)
    {
      forall i | IndexedIn(before, i) ensures IndexedIn(index, i) {
        var at :| at in before && before[at] == i;
        assert at in index && index[at] == i;
      }
    }

    twostate lemma StillKnownAll()
      requires old(Valid()) && Valid()
      ensures forall i | i in old(unseen) :: i in unseen || IndexedIn(index, i)
    {
      forall i | i in old(unseen) ensures i in unseen || IndexedIn(index, i) {
        StillKnown(i);
      }
    }

    /** Whatever is found for a key matches it, as long as the hashes do not collide. */
    lemma FoundMatches(key: string, i: nat)
      requires Valid() && Find(Address(h, key)) == Some(i)
      requires forall a, b | h.keyed(a) == h.keyed(b) :: a == b
      requires forall a, b {:trigger h.sha(a), h.sha(b)} | h.sha(a) == h.sha(b) :: a == b
      ensures h.compare(i, key) || (ByDigest(keys, i) && keys[i].sha256.digest == h.sha(key))
    {
      assert Genuine(Address(h, key), i);
    }
  }

  /** After the lookup of `at` had missed, others bound all entries that were left, one of them to `at`. */
  predicate Overtaken(before: map<int, nat>, mid: map<int, nat>, read: seq<nat>, at: int) {
    at !in before && read == [] && at in mid
  }

  // The two schedules in which a key that an entry matches is not found.

  /**
   * One key, one entry: the lookup misses, then another request with the same key runs from beginning to end. No entry is
   * left to compare, so the first request finds nothing, although the key now stands in the index.
   */
  method OvertakenByItself(h: Hashes, key: string) returns (store: APIKeyStore, looked: Option<nat>, left: nat)
    requires h.compare(0, key)
    ensures store.Valid() && looked == None && left == 0 == |store.unseen| && store.Find(Address(h, key)) == Some(0)
    ensures Overtaken(map[], store.index, store.unseen, Address(h, key))
  {
    store := BcryptOnly(h, 1);
    looked := store.Find(Address(h, key));
    FirstInFile(h, store.unseen, key);
    var other, _, _, _ := store.Verify(key, false, true);
    assert store.Find(Address(h, key)) == Some(0);
    left := |store.unseen|;
    FirstIsIn(store.unseen);
  }

  lemma FirstIsIn(s: seq<nat>)
    ensures s != [] ==> s[0] in s
  {
  }

  /** Another key binds the first entry that matches while it is compared; the second that matches is not compared. */
  method TakenByAnother(h: Hashes, key: string, another: string) returns (store: APIKeyStore, answer: Option<nat>)
    requires Address(h, key) != Address(h, another)
    requires h.compare(0, key) && h.compare(1, key) && h.compare(0, another)
    ensures store.Valid() && answer == None && store.Find(Address(h, key)) == None && 1 in store.unseen
  {
    store := BcryptOnly(h, 2);
    var at := Address(h, key);
    var entries := store.unseen;
    answer := store.Find(at);
    if answer == None {
      FirstInFile(h, entries, key);
      var i := FirstMatch(h, entries, key).value;
      assert i == 0 && store.Genuine(Address(h, another), i) && store.Genuine(at, i);
      var other := store.Remember(i, Address(h, another));
      answer := store.Remember(i, at);
    }
  }

  /** A file of n entries without a digest. */
  method BcryptOnly(h: Hashes, n: nat) returns (store: APIKeyStore)
    ensures fresh(store) && store.h == h && store.Valid() && store.index == map[]
    ensures InFileOrder(store.unseen) && forall k: nat :: k in store.unseen <==> k < n
  {
    var loaded := NewAPIKeyStore(h, seq(n, i => Entry(NoDigest, true)));
    store := loaded.value;
    assert forall at :: at !in store.index;
  }

  function FirstMatch(h: Hashes, entries: seq<nat>, key: string): Option<nat> {
    if entries == [] then None
    else if h.compare(entries[0], key) then Some(entries[0])
    else FirstMatch(h, entries[1..], key)
  }

  /** What an undisturbed request gets. */
  function Answer(h: Hashes, index: map<int, nat>, unseen: seq<nat>, key: string): Option<nat> {
    if Address(h, key) in index then Some(index[Address(h, key)]) else FirstMatch(h, unseen, key)
  }

  /** In the index that loading fills, a key is found by its SHA-256 exactly at the entry that holds it. */
  lemma DigestFinds(h: Hashes, keys: seq<Entry>, index: map<int, nat>, unseen: seq<nat>, key: string, i: nat)
    requires Loadable(h, keys) && Filled(h, keys, index, |keys|)
    requires forall a, b | h.keyed(a) == h.keyed(b) :: a == b
    requires i < |keys| && keys[i].sha256 != NoDigest
    ensures keys[i].sha256 == Digest(h.sha(key)) <==> Address(h, key) in index && Answer(h, index, unseen, key) == Some(i)
  {
    hide FirstMatch;
    assert ByDigest(keys, i);
  }

  /** FirstMatch is the match that comes first in the file. */
  lemma {:induction false} FirstInFile(h: Hashes, entries: seq<nat>, key: string)
    requires InFileOrder(entries)
    ensures match FirstMatch(h, entries, key)
            case None => forall i | i in entries :: !h.compare(i, key)
            case Some(i) => i in entries && h.compare(i, key) && forall j | j in entries && h.compare(j, key) :: i <= j
    decreases |entries|
  {
    if entries != [] {
      FirstInFile(h, entries[1..], key);
      assert entries == [entries[0]] + entries[1..];
    }
  }
}
