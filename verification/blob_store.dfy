// The quota of the file broker: internal/blob/quota.go and what internal/blob/store.go does to the usage it keeps.
// Every locked section is one method; Interleave is whatever other goroutines do between two of them.
module BlobStore {
  import opened Text

  /** Bytes that count for an owner; "" is no owner. */
  datatype Held = Held(owner: string, bytes: nat)

  // ---------------------------------------------------------------------------------------------
  // Sums over the entries of a map
  // ---------------------------------------------------------------------------------------------

  /** Whose bytes are summed. */
  datatype Who = Everyone | Owner(name: string)

  function Counted(h: Held, who: Who): nat {
    if who.Everyone? || h.owner == who.name then h.bytes else 0
  }

  ghost function Sum<K>(m: map<K, Held>, who: Who): nat
    decreases |m|
  {
    if m == map[] then 0
    else
      var k :| k in m;
      Counted(m[k], who) + Sum(m - {k}, who)
  }

  /** The order of summation does not matter. */
  lemma {:induction false} SumWithout<K>(m: map<K, Held>, k: K, who: Who)
    requires k in m
    ensures Sum(m, who) == Counted(m[k], who) + Sum(m - {k}, who)
    decreases |m|
  {
    var j :| j in m && Sum(m, who) == Counted(m[j], who) + Sum(m - {j}, who);
    if j != k {
      SumWithout(m - {j}, k, who);
      SumWithout(m - {k}, j, who);
      assert m - {j} - {k} == m - {k} - {j};
    }
  }

  lemma SumChanged<K>(m: map<K, Held>, k: K, h: Held, who: Who)
    ensures Sum(m[k := h], who) == Sum(m, who) + Counted(h, who) - (if k in m then Counted(m[k], who) else 0)
  {
    SumWithout(m[k := h], k, who);
    if k in m {
      SumWithout(m, k, who);
      assert m[k := h] - {k} == m - {k};
    } else {
      assert m[k := h] - {k} == m;
    }
  }

  // ---------------------------------------------------------------------------------------------
  // The usage and the bytes there are
  // ---------------------------------------------------------------------------------------------

  /** A limit that is not positive is no limit. */
  datatype Quota = Quota(maxTotalBytes: int, maxBytesPerUser: int)

  datatype Usage = Usage(used: int, usedBy: map<string, int>)

  datatype Entry = Entry(size: nat, owner: string, expiresAt: int)

  function Sizes(blobs: map<string, Entry>): map<string, Held> {
    map id | id in blobs :: Held(blobs[id].owner, blobs[id].size)
  }

  function Of(u: Usage, owner: string): int {
    if owner in u.usedBy then u.usedBy[owner] else 0
  }

  /** The bytes of the blobs and of the writes in flight. */
  ghost function Bytes(blobs: map<string, Entry>, held: map<nat, Held>, who: Who): nat {
    Sum(Sizes(blobs), who) + Sum(held, who)
  }

  /** Owners without bytes have no entry. */
  predicate NoIdleOwner(u: Usage) {
    "" !in u.usedBy && forall owner | owner in u.usedBy :: u.usedBy[owner] > 0
  }

  /** The usage is the bytes there are, in total and for every owner. */
  ghost predicate Conserved(u: Usage, blobs: map<string, Entry>, held: map<nat, Held>) {
    && u.used == Bytes(blobs, held, Everyone)
    && forall owner | owner != "" :: Of(u, owner) == Bytes(blobs, held, Owner(owner))
  }

  /** v is u with n more bytes for owner. */
  ghost predicate Added(u: Usage, owner: string, n: int, v: Usage) {
    v.used == u.used + n && forall o | o != "" :: Of(v, o) == Of(u, o) + if o == owner then n else 0
  }

  /** Within the limits, in total and for every owner. */
  ghost predicate Within(q: Quota, u: Usage) {
    && (q.maxTotalBytes > 0 ==> u.used <= q.maxTotalBytes)
    && (q.maxBytesPerUser > 0 ==> forall owner | owner != "" :: Of(u, owner) <= q.maxBytesPerUser)
  }

  lemma HeldMoves(u: Usage, blobs: map<string, Entry>, held: map<nat, Held>, key: nat, n: int, v: Usage)
    requires Conserved(u, blobs, held) && key in held && held[key].bytes + n >= 0 && Added(u, held[key].owner, n, v)
    ensures Conserved(v, blobs, held[key := Held(held[key].owner, held[key].bytes + n)])
  {
    hide Sum;
    var h := Held(held[key].owner, held[key].bytes + n);
    SumChanged(held, key, h, Everyone);
    forall owner | owner != "" ensures Of(v, owner) == Bytes(blobs, held[key := h], Owner(owner)) {
      SumChanged(held, key, h, Owner(owner));
    }
  }

  lemma BlobLeaves(u: Usage, blobs: map<string, Entry>, held: map<nat, Held>, id: string, v: Usage)
    requires Conserved(u, blobs, held) && id in blobs && Added(u, blobs[id].owner, -(blobs[id].size as int), v)
    ensures Conserved(v, blobs - {id}, held)
  {
    hide Sum;
    var sizes := Sizes(blobs);
    assert Sizes(blobs - {id}) == sizes - {id};
    SumWithout(sizes, id, Everyone);
    forall owner | owner != "" ensures Of(v, owner) == Bytes(blobs - {id}, held, Owner(owner)) {
      SumWithout(sizes, id, Owner(owner));
    }
  }

  lemma HeldCounts(u: Usage, blobs: map<string, Entry>, held: map<nat, Held>, key: nat)
    requires Conserved(u, blobs, held) && key in held
    ensures held[key].owner != "" ==> held[key].bytes <= Of(u, held[key].owner)
  {
    hide Sum;
    SumWithout(held, key, Owner(held[key].owner));
  }

  lemma BlobCounts(u: Usage, blobs: map<string, Entry>, held: map<nat, Held>, id: string)
    requires Conserved(u, blobs, held) && id in blobs
    ensures blobs[id].owner != "" ==> blobs[id].size <= Of(u, blobs[id].owner)
  {
    hide Sum;
    SumWithout(Sizes(blobs), id, Owner(blobs[id].owner));
  }

  lemma NewWriter(u: Usage, blobs: map<string, Entry>, held: map<nat, Held>, key: nat, owner: string)
    requires Conserved(u, blobs, held) && key !in held
    ensures Conserved(u, blobs, held[key := Held(owner, 0)])
  {
    hide Sum;
    forall who ensures Sum(held[key := Held(owner, 0)], who) == Sum(held, who) {
      SumChanged(held, key, Held(owner, 0), who);
    }
  }

  /** The bytes of a finished write become those of the blob, and a blob already stored under the identifier is lost. */
  lemma CommitBytes(blobs: map<string, Entry>, held: map<nat, Held>, key: nat, id: string, e: Entry, who: Who)
    requires key in held && held[key] == Held(e.owner, e.size)
    ensures Bytes(blobs[id := e], held - {key}, who)
         == Bytes(blobs, held, who) - if id in blobs then Counted(Sizes(blobs)[id], who) else 0
  {
    hide Sum;
    assert Sizes(blobs[id := e]) == Sizes(blobs)[id := Held(e.owner, e.size)];
    SumChanged(Sizes(blobs), id, Held(e.owner, e.size), who);
    SumWithout(held, key, who);
  }

  /** So a commit keeps the usage exact precisely when its identifier is new or that of an empty blob. */
  lemma CommitExactly(u: Usage, blobs: map<string, Entry>, held: map<nat, Held>, key: nat, id: string, e: Entry)
    requires Conserved(u, blobs, held) && key in held && held[key] == Held(e.owner, e.size)
    ensures Conserved(u, blobs[id := e], held - {key}) <==> id !in blobs || blobs[id].size == 0
  {
    hide Sum, Bytes;
    CommitBytes(blobs, held, key, id, e, Everyone);
    forall owner { CommitBytes(blobs, held, key, id, e, Owner(owner)); }
  }

  lemma FailBytes(u: Usage, blobs: map<string, Entry>, held: map<nat, Held>, key: nat)
    requires Conserved(u, blobs, held) && key in held && held[key].bytes == 0
    ensures Conserved(u, blobs, held - {key})
  {
    hide Sum;
    forall who ensures Sum(held - {key}, who) == Sum(held, who) { SumWithout(held, key, who); }
  }

  /** With n more bytes what there is stays within the limits, where there is one: in total and, if there is one, for the owner. */
  ghost predicate HasRoom(q: Quota, blobs: map<string, Entry>, held: map<nat, Held>, owner: string, n: nat) {
    && (q.maxTotalBytes <= 0 || Bytes(blobs, held, Everyone) + n <= q.maxTotalBytes)
    && (q.maxBytesPerUser <= 0 || owner == "" || Bytes(blobs, held, Owner(owner)) + n <= q.maxBytesPerUser)
  }

  // ---------------------------------------------------------------------------------------------
  // The store
  // ---------------------------------------------------------------------------------------------

  class Store {
    var blobs: map<string, Entry>
    var quota: Quota
    var usage: Usage
    /** What every write in flight has reserved. In the program this is spread over the writers. */
    var held: map<nat, Held>

    constructor ()
      ensures Valid() && blobs == map[] && held == map[] && Within(quota, usage)
    {
      blobs, quota, usage, held := map[], Quota(0, 0), Usage(0, map[]), map[];
    }

    ghost predicate Valid()
      reads this
    {
      NoIdleOwner(usage) && Conserved(usage, blobs, held)
    }

    predicate Fits(owner: string, n: int)
      reads this
    {
      && !(quota.maxTotalBytes > 0 && usage.used + n > quota.maxTotalBytes)
      && !(quota.maxBytesPerUser > 0 && owner != "" && Of(usage, owner) + n > quota.maxBytesPerUser)
    }

    /** n more bytes are accepted exactly when the blobs and the writes in flight leave room for them. */
    lemma FitsExactly(owner: string, n: nat)
      requires Valid()
      ensures Fits(owner, n) <==> HasRoom(quota, blobs, held, owner, n)
    {
      hide Bytes, NoIdleOwner;
    }

    /** addLocked: the clamp loses nothing as long as the owner has the bytes that are given back. */
    method AddLocked(owner: string, n: int)
      requires NoIdleOwner(usage) && (owner != "" ==> Of(usage, owner) + n >= 0)
      modifies `usage
      ensures NoIdleOwner(usage) && Added(old(usage), owner, n, usage)
    {
      usage := usage.(used := usage.used + n);
      if owner == "" {
        return;
      }
      var v := Of(usage, owner) + n;
      if v > 0 {
        usage := usage.(usedBy := usage.usedBy[owner := v]);
      } else {
        usage := usage.(usedBy := usage.usedBy - {owner});
      }
    }

    /** Blobs already stored stay, even above the new limits. */
    method SetQuota(q: Quota)
      requires Valid()
      modifies `quota
      ensures Valid() && quota == q
    {
      quota := q;
    }

    /** A new write; it holds nothing yet. */
    method Begin(key: nat, owner: string)
      requires Valid() && key !in held
      modifies `held
      ensures Valid() && held == old(held)[key := Held(owner, 0)]
    {
      NewWriter(usage, blobs, held, key, owner);
      held := held[key := Held(owner, 0)];
    }

    /** reserve: n more bytes for a write, exactly when they fit. */
    method Reserve(key: nat, owner: string, n: nat) returns (ok: bool)
      requires Valid() && key in held && held[key].owner == owner
      modifies `usage, `held
      ensures Valid() && (old(Within(quota, usage)) ==> Within(quota, usage))
      ensures ok <==> HasRoom(quota, old(blobs), old(held), owner, n)
      ensures if ok then Added(old(usage), owner, n, usage) && held == old(held)[key := Held(owner, old(held)[key].bytes + n)]
              else usage == old(usage) && held == old(held)
    {
      FitsExactly(owner, n);
      hide Conserved;
      ok := Fits(owner, n);
      if ok {
        HeldCounts(usage, blobs, held, key);
        AddLocked(owner, n);
        HeldMoves(old(usage), blobs, held, key, n, usage);
        held := held[key := Held(owner, held[key].bytes + n)];
      }
    }

    /** release: gives back bytes that a write has reserved. */
    method Release(key: nat, owner: string, n: nat)
      requires Valid() && key in held && held[key].owner == owner && n <= held[key].bytes
      modifies `usage, `held
      ensures Valid() && (old(Within(quota, usage)) ==> Within(quota, usage))
      ensures Added(old(usage), owner, -(n as int), usage)
      ensures held == old(held)[key := Held(owner, old(held)[key].bytes - n)]
    {
      hide Conserved;
      HeldCounts(usage, blobs, held, key);
      var less: int := n;
      AddLocked(owner, -less);
      HeldMoves(old(usage), blobs, held, key, -less, usage);
      held := held[key := Held(owner, held[key].bytes - n)];
    }

    /** The last section of PutOwned: the blob takes over what the write holds. */
    method Commit(key: nat, id: string, e: Entry)
      requires Valid() && key in held && held[key] == Held(e.owner, e.size)
      modifies `blobs, `held
      ensures blobs == old(blobs)[id := e] && held == old(held) - {key}
      ensures Valid() <==> id !in old(blobs) || old(blobs)[id].size == 0
    {
      hide Conserved;
      CommitExactly(usage, blobs, held, key, id, e);
      blobs := blobs[id := e];
      held := held - {key};
    }

    /** A failed write has given back what it held and is gone. */
    method Drop(key: nat)
      requires Valid() && key in held && held[key].bytes == 0
      modifies `held
      ensures Valid() && held == old(held) - {key}
    {
      FailBytes(usage, blobs, held, key);
      held := held - {key};
    }

    method Remove(id: string)
      requires Valid() && id in blobs
      modifies `usage, `blobs
      ensures Valid() && (old(Within(quota, usage)) ==> Within(quota, usage))
      ensures blobs == old(blobs) - {id} && Added(old(usage), old(blobs)[id].owner, -(old(blobs)[id].size as int), usage)
    {
      hide Conserved;
      var entry := blobs[id];
      var size: int := entry.size;
      BlobCounts(usage, blobs, held, id);
      AddLocked(entry.owner, -size);
      BlobLeaves(old(usage), blobs, held, id, usage);
      blobs := blobs - {id};
    }

    method Delete(id: string) returns (ok: bool)
      requires Valid()
      modifies `usage, `blobs
      ensures Valid() && (old(Within(quota, usage)) ==> Within(quota, usage))
      ensures ok <==> id in old(blobs)
      ensures blobs == old(blobs) - {id}
      ensures if ok then Added(old(usage), old(blobs)[id].owner, -(old(blobs)[id].size as int), usage) else usage == old(usage)
    {
      hide Conserved, Added;
      ok := id in blobs;
      if ok {
        Remove(id);
      } else {
        assert blobs - {id} == blobs;
      }
    }

    /** Every blob that has expired at now goes, in any order, and its bytes with it. */
    method RemoveExpired(now: int)
      requires Valid()
      modifies `usage, `blobs
      ensures Valid() && (old(Within(quota, usage)) ==> Within(quota, usage))
      ensures blobs == map id | id in old(blobs) && now <= old(blobs)[id].expiresAt :: old(blobs)[id]
    {
      hide Conserved, Added, Within;
      var todo := blobs.Keys;
      while todo != {}
        invariant Valid() && (old(Within(quota, usage)) ==> Within(quota, usage))
        invariant todo <= blobs.Keys <= old(blobs).Keys
        invariant forall id | id in blobs :: blobs[id] == old(blobs)[id]
        invariant forall id | id in old(blobs) && id !in todo :: id in blobs <==> now <= old(blobs)[id].expiresAt
        decreases |todo|
      {
        var id :| id in todo;
        if now > blobs[id].expiresAt {
          Remove(id);
        }
        todo := todo - {id};
      }
    }

    /**
     * Any number of locked sections of other goroutines, in any order: other writes begin, reserve, give back, commit
     * under an identifier that is new, or end; blobs are deleted and expire; the quota changes unless it is fixed.
     */
    method Interleave(key: nat, fixed: bool)
      requires Valid()
      modifies this
      ensures Valid() && (key in held <==> key in old(held)) && (key in held ==> held[key] == old(held)[key])
      ensures fixed ==> quota == old(quota) && (old(Within(quota, usage)) ==> Within(quota, usage))
    {
      hide Conserved, Added, Within;
      var rounds: int := *;
      if rounds < 0 {
        return;
      }
      for round := 0 to rounds
        invariant Valid() && (key in held <==> key in old(held)) && (key in held ==> held[key] == old(held)[key])
        invariant fixed ==> quota == old(quota) && (old(Within(quota, usage)) ==> Within(quota, usage))
      {
        OtherStep(key, fixed);
      }
    }

    method OtherStep(key: nat, fixed: bool)
      requires Valid()
      modifies this
      ensures Valid() && (key in held <==> key in old(held)) && (key in held ==> held[key] == old(held)[key])
      ensures fixed ==> quota == old(quota) && (old(Within(quota, usage)) ==> Within(quota, usage))
    {
      hide Conserved, Added, Within;
      var step: nat, other: nat, n: nat := *, *, *;
      var id: string, owner: string, when: int := *, *, *;
      var q: Quota := *;
      if step == 0 {
        var ok := Delete(id);
      } else if step == 1 {
        RemoveExpired(when);
      } else if step == 2 {
        if !fixed {
          SetQuota(q);
        }
      } else if other != key {
        if other !in held {
          Begin(other, owner);
        } else if step == 3 {
          var ok := Reserve(other, held[other].owner, n);
        } else if step == 4 && n <= held[other].bytes {
          Release(other, held[other].owner, n);
        } else if step == 5 && id !in blobs {
          Commit(other, id, Entry(held[other].bytes, held[other].owner, when));
        } else if held[other].bytes == 0 {
          Drop(other);
        }
      }
    }

    /**
     * PutOwned with other goroutines between its sections. Whatever happens, the write holds nothing in the end; a blob
     * that is stored has the size of everything that was written. at is the index the blob was put into.
     */
    method PutOwned(key: nat, id: string, owner: string, body: seq<Event>, expiresAt: int, fixed: bool)
      returns (r: Result<nat>, ghost at: map<string, Entry>)
      requires Valid() && key !in held && forall e | e in body :: Possible(e)
      modifies this
      ensures key !in held
      ensures fixed ==> quota == old(quota) && (old(Within(quota, usage)) ==> Within(quota, usage))
      ensures r.Err? ==> Valid() && blobs == at
      ensures r.Ok? ==> r.value == Total(body) && blobs == at[id := Entry(r.value, owner, expiresAt)]
      ensures r.Ok? ==> (Valid() <==> id !in at || at[id].size == 0)
    {
      hide Conserved, Added, Within;
      Begin(key, owner);
      var qw := new QuotaWriter(this, owner, key);
      Interleave(key, fixed);
      var ok, n := qw.Copy(body, fixed);
      if !ok {
        Release(key, owner, qw.reserved);
        Drop(key);
        at := blobs;
        return Err, at;
      }
      at := blobs;
      Commit(key, id, Entry(n, owner, expiresAt));
      return Ok(n), at;
    }
  }

  // ---------------------------------------------------------------------------------------------
  // Writing a blob of unknown length
  // ---------------------------------------------------------------------------------------------

  /** What reading the body and writing the file give: a chunk of which some bytes are written, or a read error. */
  datatype Event = Chunk(len: nat, written: nat, failed: bool) | ReadFailed

  /** A file never takes more than it is given. */
  predicate Possible(e: Event) {
    e.Chunk? ==> e.written <= e.len
  }

  function Total(body: seq<Event>): nat {
    if body == [] then 0 else Total(body[..|body| - 1]) + if body[|body| - 1].Chunk? then body[|body| - 1].len else 0
  }

  class QuotaWriter {
    const s: Store
    const owner: string
    const key: nat
    var reserved: nat

    constructor (s: Store, owner: string, key: nat)
      ensures this.s == s && this.owner == owner && this.key == key && reserved == 0
    {
      this.s, this.owner, this.key, reserved := s, owner, key, 0;
    }

    /** The writer knows what it holds. */
    ghost predicate Open()
      reads this, s
    {
      key in s.held && s.held[key] == Held(owner, reserved)
    }

    /** Write: n is what was written, and that is what stays reserved. */
    method Write(e: Event, fixed: bool) returns (n: nat, ok: bool)
      requires e.Chunk? && Possible(e) && s.Valid() && Open()
      modifies `reserved, s
      ensures s.Valid() && Open() && reserved == old(reserved) + n
      ensures ok ==> n == e.written && !e.failed
      ensures fixed ==> s.quota == old(s.quota) && (old(Within(s.quota, s.usage)) ==> Within(s.quota, s.usage))
    {
      hide Conserved, Added, Within;
      var fits := s.Reserve(key, owner, e.len);
      if !fits {
        return 0, false;
      }
      s.Interleave(key, fixed);
      n := e.written;
      if n < e.len {
        s.Release(key, owner, e.len - n);
        s.Interleave(key, fixed);
      }
      reserved := reserved + n;
      ok := !e.failed;
    }

    /** io.Copy into the writer: it stops at the first read error, write error or short write. */
    method Copy(body: seq<Event>, fixed: bool) returns (ok: bool, n: nat)
      requires (forall e | e in body :: Possible(e)) && s.Valid() && Open() && reserved == 0
      modifies `reserved, s
      ensures s.Valid() && Open() && (ok ==> n == reserved == Total(body))
      ensures fixed ==> s.quota == old(s.quota) && (old(Within(s.quota, s.usage)) ==> Within(s.quota, s.usage))
    {
      hide Conserved, Added, Within;
      n := 0;
      for i := 0 to |body|
        invariant s.Valid() && Open() && n == reserved == Total(body[..i])
        invariant fixed ==> s.quota == old(s.quota) && (old(Within(s.quota, s.usage)) ==> Within(s.quota, s.usage))
      {
        if body[i].ReadFailed? {
          return false, n;
        }
        var written, done := Write(body[i], fixed);
        if !done || written != body[i].len {
          return false, n;
        }
        s.Interleave(key, fixed);
        n := n + written;
        assert body[..i + 1][..i] == body[..i];
      }
      assert body[..|body|] == body;
      ok := true;
    }
  }
}
