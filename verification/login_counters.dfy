// The process-local table of failed-login counters: localLoginCounters in
// internal/auth/loginthrottle.go.
module LoginCounters {
  import opened Text

  datatype Scope = ScopeUserIP | ScopeUser | ScopeIP

  /** A counter key. The hashes and prefixes that make up the key text keep distinct keys apart. */
  datatype Key = UserIPKey(account: string, ip: string) | UserKey(account: string) | IPKey(ip: string) {
    function Scope(): Scope {
      match this
      case UserIPKey(_, _) => ScopeUserIP
      case UserKey(_) => ScopeUser
      case IPKey(_) => ScopeIP
    }
  }

  /** One counter an attempt is charged to. */
  datatype LoginCounter = LoginCounter(key: Key, limit: nat)

  /** An entry of the table. Times are nanoseconds. */
  datatype Counter = Counter(count: int, unshared: int, limit: int, expires: int)

  type Table = map<Key, Counter>

  /** The largest number of counters one attempt is charged to. */
  const MAX_CHARGED := 3

  predicate IsLive(t: Table, k: Key, now: int) {
    k in t && now < t[k].expires
  }

  /** The entries whose window is not over. */
  function Live(t: Table, now: int): Table {
    map k | k in t && now < t[k].expires :: t[k]
  }

  function KeysOf(counters: seq<LoginCounter>): set<Key> {
    set c | c in counters :: c.key
  }

  predicate DistinctKeys(counters: seq<LoginCounter>) {
    forall i, j | 0 <= i < j < |counters| :: counters[i].key != counters[j].key
  }

  // ---------------------------------------------------------------------------------------------
  // What the operations do to the table
  // ---------------------------------------------------------------------------------------------

  /** The first counter that is live and has reached its limit, or -1. */
  function FirstExhausted(t: Table, counters: seq<LoginCounter>, now: int): (i: int)
    ensures -1 <= i < |counters|
    ensures i >= 0 ==> IsLive(t, counters[i].key, now) && t[counters[i].key].count >= counters[i].limit
    ensures forall j | 0 <= j < (if i < 0 then |counters| else i) ::
              IsLive(t, counters[j].key, now) ==> t[counters[j].key].count < counters[j].limit
  {
    if counters == [] then -1
    else if IsLive(t, counters[0].key, now) && t[counters[0].key].count >= counters[0].limit then 0
    else var j := FirstExhausted(t, counters[1..], now); if j < 0 then -1 else j + 1
  }

  function ChargedEntry(t: Table, c: LoginCounter, window: int, now: int, unshared: bool): Counter {
    var e := if c.key in t then t[c.key] else Counter(0, 0, 0, now + window);
    Counter(e.count + 1, if unshared then e.unshared + 1 else e.unshared, c.limit, e.expires)
  }

  /** The charges of one attempt, applied counter by counter; a missing entry starts its window now. */
  function Charged(t: Table, counters: seq<LoginCounter>, window: int, now: int, unshared: bool): Table
    decreases |counters|
  {
    if counters == [] then t
    else Charged(t[counters[0].key := ChargedEntry(t, counters[0], window, now, unshared)], counters[1..], window, now, unshared)
  }

  function ReleasedOne(t: Table, c: LoginCounter, shared: bool, clearAccount: bool, now: int): Table {
    if clearAccount && c.key.Scope() != ScopeIP then t - {c.key}
    else if !IsLive(t, c.key, now) then t - {c.key}
    else
      var e := t[c.key];
      if e.count <= 1 then t - {c.key}
      else t[c.key := e.(count := e.count - 1, unshared := if !shared && e.unshared > 0 then e.unshared - 1 else e.unshared)]
  }

  /** The table after an attempt handed its slot back. */
  function Released(t: Table, counters: seq<LoginCounter>, shared: bool, clearAccount: bool, now: int): Table
    decreases |counters|
  {
    if counters == [] then t
    else Released(ReleasedOne(t, counters[0], shared, clearAccount, now), counters[1..], shared, clearAccount, now)
  }

  /** t without those of the given counters whose window is over. */
  function Purged(t: Table, keys: set<Key>, now: int): Table {
    map k | k in t && (k in keys ==> now < t[k].expires) :: t[k]
  }

  // What makeRoom may do, whatever the order in which the map is walked: it only removes entries,
  // never a live one that the attempt is charged to, until `need` more entries fit. An exhausted
  // counter goes only when nothing that is not exhausted is left to go.
  ghost predicate RoomMade(t: Table, t': Table, need: nat, keep: set<Key>, maxEntries: nat, now: int, dropped: nat) {
    && t'.Keys <= t.Keys
    && (forall k | k in t' :: t'[k] == t[k])
    && |t'| + need <= maxEntries
    && (forall k | k in keep && IsLive(t, k, now) :: k in t')
    && dropped == |Live(t, now)| - |Live(t', now)|
    && ((exists k | k in t :: EvictedExhausted(t, t', k, now)) ==> forall k | k in t' :: k in keep || Exhausted(t', k))
  }

  predicate Exhausted(t: Table, k: Key) {
    k in t && t[k].count >= t[k].limit
  }

  predicate EvictedExhausted(t: Table, t': Table, k: Key, now: int) {
    IsLive(t, k, now) && Exhausted(t, k) && k !in t'
  }

  lemma LiveKeys(t: Table, now: int)
    ensures Live(t, now).Keys <= t.Keys
    ensures forall k :: k in Live(t, now) <==> IsLive(t, k, now)
  {
  }

  lemma SubsetSize<T>(a: set<T>, b: set<T>)
    requires a <= b
    ensures |a| <= |b|
    ensures |a| == |b| ==> a == b
  {
    assert b == a + (b - a);
    assert |b| == |a| + |b - a|;
    if |a| == |b| {
      assert b - a == {};
    }
  }

  /** When nothing live was dropped, the live entries are as before. */
  lemma NothingDropped(t: Table, t': Table, need: nat, keep: set<Key>, maxEntries: nat, now: int)
    requires RoomMade(t, t', need, keep, maxEntries, now, 0)
    ensures Live(t', now) == Live(t, now)
  {
    SubsetSize(Live(t', now).Keys, Live(t, now).Keys);
  }

  // ---------------------------------------------------------------------------------------------
  // The table itself
  // ---------------------------------------------------------------------------------------------

  class LocalCounters {
    var entries: Table
    const maxEntries: nat

    constructor (maxEntries: nat)
      ensures this.maxEntries == maxEntries && entries == map[]
    {
      this.maxEntries := maxEntries;
      entries := map[];
    }

    /** Reads one entry; the read itself removes an entry that is over. */
    method LiveEntry(key: Key, now: int) returns (e: Option<Counter>)
      modifies this`entries
      ensures entries == Purged(old(entries), {key}, now)
      ensures e == if IsLive(old(entries), key, now) then Some(old(entries)[key]) else None
    {
      if key in entries {
        e := Some(entries[key]);
        if !(now < entries[key].expires) {
          entries := entries - {key};
          e := None;
        }
      } else {
        e := None;
      }
    }

    method HoldsUnshared(counters: seq<LoginCounter>, now: int) returns (held: bool)
      modifies this`entries
      ensures held <==> exists c | c in counters :: IsLive(old(entries), c.key, now) && old(entries)[c.key].unshared > 0
      ensures entries.Keys <= old(entries).Keys && Live(entries, now) == Live(old(entries), now)
      ensures forall k | k in entries :: entries[k] == old(entries)[k]
    {
      for i := 0 to |counters|
        invariant forall j | 0 <= j < i :: !(IsLive(old(entries), counters[j].key, now) && old(entries)[counters[j].key].unshared > 0)
        invariant entries.Keys <= old(entries).Keys && Live(entries, now) == Live(old(entries), now)
        invariant forall k | k in entries :: entries[k] == old(entries)[k]
      {
        assert IsLive(entries, counters[i].key, now) <==> counters[i].key in Live(old(entries), now);
        var e := LiveEntry(counters[i].key, now);
        if e.Some? && e.value.unshared > 0 {
          assert counters[i] in counters;
          return true;
        }
      }
      return false;
    }

    method MakeRoom(need: nat, keep: set<Key>, now: int) returns (dropped: nat)
      requires |entries| <= maxEntries
      requires |keep| <= maxEntries && need <= |keep - entries.Keys|
      modifies this`entries
      ensures RoomMade(old(entries), entries, need, keep, maxEntries, now, dropped)
      ensures |old(entries)| + need <= maxEntries ==> entries == old(entries)
    {
      hide RoomMade, Live, Exhausted;
      ghost var before := entries;
      RoomUntouched(before, need, keep, maxEntries, now);
      if |entries| + need <= maxEntries {
        return 0;
      }
      DropExpired(now);
      RoomSwept(before, need, keep, maxEntries, now);
      if |entries| + need <= maxEntries {
        return 0;
      }
      NeedGrows(before.Keys, entries.Keys, keep, need);
      dropped := DropLive(need, keep, now, before);
    }

    /** The sweeps after the expired entries are gone. */
    method DropLive(need: nat, keep: set<Key>, now: int, ghost before: Table) returns (dropped: nat)
      requires entries == Live(before, now) && |entries| <= maxEntries
      requires |keep| <= maxEntries && need <= |keep - entries.Keys|
      modifies this`entries
      ensures RoomMade(before, entries, need, keep, maxEntries, now, dropped)
    {
      hide RoomMade, Live, BatchDropped, OthersDropped;
      ghost var swept := entries;
      dropped := DropBatch(need, keep);
      ghost var rest := entries;
      ghost var batch := dropped;
      BatchNeed(swept, rest, need, keep, batch);
      var more := DropUntilFits(need, keep);
      dropped := dropped + more;
      RoomComposes(before, swept, rest, entries, need, keep, maxEntries, now, batch, more, dropped);
    }

    lemma RoomUntouched(t: Table, need: nat, keep: set<Key>, maxEntries: nat, now: int)
      ensures |t| + need <= maxEntries ==> RoomMade(t, t, need, keep, maxEntries, now, 0)
    {
    }

    lemma RoomSwept(t: Table, need: nat, keep: set<Key>, maxEntries: nat, now: int)
      ensures |t| + need > maxEntries && |Live(t, now)| + need <= maxEntries ==>
                RoomMade(t, Live(t, now), need, keep, maxEntries, now, 0)
      ensures Live(t, now).Keys <= t.Keys && |Live(t, now)| <= |t|
    {
      AllLive(Live(t, now), Live(t, now), now);
      SubsetSize(Live(t, now).Keys, t.Keys);
    }

    /** The first sweep of makeRoom. */
    method DropExpired(now: int)
      modifies this`entries
      ensures entries == Live(old(entries), now)
    {
      var todo := entries.Keys;
      while todo != {}
        invariant todo <= old(entries).Keys
        invariant entries == map k | k in old(entries) && (k in todo || now < old(entries)[k].expires) :: old(entries)[k]
        decreases |todo|
      {
        var k :| k in todo;
        todo := todo - {k};
        if !(now < entries[k].expires) {
          entries := entries - {k};
        }
      }
    }

    /** The second sweep: a batch of live counters that are not exhausted. */
    method DropBatch(need: nat, keep: set<Key>) returns (dropped: nat)
      modifies this`entries
      ensures BatchDropped(old(entries), entries, need, keep, dropped)
    {
      var batch := if maxEntries / 10 > need then maxEntries / 10 else need;
      dropped := 0;
      var todo := entries.Keys;
      while todo != {}
        invariant todo <= entries.Keys <= old(entries).Keys
        invariant forall k | k in entries :: entries[k] == old(entries)[k]
        invariant forall k | k in old(entries) && k !in entries :: !Exhausted(old(entries), k) && k !in keep
        invariant dropped == |old(entries)| - |entries|
        invariant forall k | k in entries && k !in todo :: k in keep || Exhausted(entries, k)
        decreases |todo|
      {
        if dropped >= batch {
          break;
        }
        var k :| k in todo;
        todo := todo - {k};
        if entries[k].count < entries[k].limit && k !in keep {
          assert (entries - {k}).Keys == entries.Keys - {k};
          entries := entries - {k};
          dropped := dropped + 1;
        }
      }
    }

    /** The third sweep: anything the attempt is not charged to, until the need is met. */
    method DropUntilFits(need: nat, keep: set<Key>) returns (dropped: nat)
      requires |keep| <= maxEntries && need <= |keep - entries.Keys|
      modifies this`entries
      ensures OthersDropped(old(entries), entries, need, keep, maxEntries, dropped)
    {
      dropped := 0;
      var todo := entries.Keys;
      while todo != {}
        invariant todo <= entries.Keys <= old(entries).Keys
        invariant forall k | k in entries :: entries[k] == old(entries)[k]
        invariant forall k | k in old(entries) && k in keep :: k in entries
        invariant dropped == |old(entries)| - |entries|
        invariant |old(entries)| + need <= maxEntries ==> entries == old(entries)
        invariant forall k | k in entries && k !in todo :: k in keep
        decreases |todo|
      {
        if |entries| + need <= maxEntries {
          return;
        }
        var k :| k in todo;
        todo := todo - {k};
        if k !in keep {
          assert (entries - {k}).Keys == entries.Keys - {k};
          entries := entries - {k};
          dropped := dropped + 1;
        }
      }
      OnlyKept(old(entries).Keys, entries.Keys, keep, need, maxEntries);
    }

    /** The first loop of charge: how many of the counters are not live. */
    method CountMissing(counters: seq<LoginCounter>, now: int) returns (missing: nat)
      requires DistinctKeys(counters)
      modifies this`entries
      ensures entries == Purged(old(entries), KeysOf(counters), now)
      ensures missing == |KeysOf(counters) - entries.Keys|
    {
      hide Purged, Live, KeysOf, IsLive;
      ghost var before := entries;
      missing := 0;
      PurgedNone(before, counters, now);
      for i := 0 to |counters|
        invariant entries == Purged(before, KeysOf(counters[..i]), now)
        invariant missing == |KeysOf(counters[..i]) - Live(before, now).Keys|
      {
        KeysOfAppend(counters, i);
        MissingStep(before, KeysOf(counters[..i]), counters[i].key, now);
        var e := LiveEntry(counters[i].key, now);
        if e == None {
          missing := missing + 1;
        }
      }
      assert counters[..|counters|] == counters;
      PurgedMissing(before, KeysOf(counters), now);
    }

    /** The second loop of charge. */
    method ChargeEach(counters: seq<LoginCounter>, window: int, now: int, unshared: bool)
      modifies this`entries
      ensures entries == Charged(old(entries), counters, window, now, unshared)
    {
      for i := 0 to |counters|
        invariant Charged(entries, counters[i..], window, now, unshared) == Charged(old(entries), counters, window, now, unshared)
      {
        var c := counters[i];
        var e := if c.key in entries then entries[c.key] else Counter(0, 0, 0, now + window);
        e := e.(count := e.count + 1);
        if unshared {
          e := e.(unshared := e.unshared + 1);
        }
        e := e.(limit := c.limit);
        assert e == ChargedEntry(entries, c, window, now, unshared);
        assert counters[i..][1..] == counters[i + 1..];
        entries := entries[c.key := e];
      }
    }

    /** charge: room is the table after makeRoom. */
    method Charge(counters: seq<LoginCounter>, window: int, now: int, unshared: bool) returns (dropped: nat, ghost room: Table)
      requires |entries| <= maxEntries && MAX_CHARGED <= maxEntries
      requires DistinctKeys(counters) && |counters| <= MAX_CHARGED
      modifies this`entries
      ensures var start := Purged(old(entries), KeysOf(counters), now);
              RoomMade(start, room, |KeysOf(counters) - start.Keys|, KeysOf(counters), maxEntries, now, dropped)
      ensures entries == Charged(room, counters, window, now, unshared)
    {
      hide RoomMade;
      var missing := CountMissing(counters, now);
      SubsetSize(entries.Keys, old(entries).Keys);
      KeysOfSize(counters);
      dropped := MakeRoom(missing, KeysOf(counters), now);
      room := entries;
      ChargeEach(counters, window, now, unshared);
    }

    /** acquire: an attempt that this table decides. */
    method Acquire(counters: seq<LoginCounter>, window: int, now: int)
      returns (blocked: int, retryAfter: int, dropped: nat, ghost room: Table)
      requires |entries| <= maxEntries && MAX_CHARGED <= maxEntries
      requires DistinctKeys(counters) && |counters| <= MAX_CHARGED
      modifies this`entries
      ensures LocallyDecided(old(entries), entries, counters, window, now, maxEntries, blocked, retryAfter, dropped, room)
    {
      hide RoomMade, FirstExhausted, Charged;
      ghost var before := entries;
      blocked, retryAfter := FindExhausted(counters, now);
      SubsetSize(entries.Keys, before.Keys);
      if blocked >= 0 {
        room := entries;
        return blocked, retryAfter, 0, room;
      }
      PurgedTwice(before, KeysOf(counters), now);
      dropped, room := Charge(counters, window, now, true);
      return -1, 0, dropped, room;
    }

    /** The loop of acquire: the first counter that is exhausted. */
    method FindExhausted(counters: seq<LoginCounter>, now: int) returns (blocked: int, retryAfter: int)
      modifies this`entries
      ensures blocked == FirstExhausted(old(entries), counters, now)
      ensures blocked >= 0 ==>
                && retryAfter == old(entries)[counters[blocked].key].expires - now
                && entries.Keys <= old(entries).Keys && Live(entries, now) == Live(old(entries), now)
                && forall k | k in entries :: entries[k] == old(entries)[k]
      ensures blocked < 0 ==> entries == Purged(old(entries), KeysOf(counters), now)
    {
      hide KeysOf, FirstExhausted;
      ghost var before := entries;
      PurgedNone(before, counters, now);
      for i := 0 to |counters|
        invariant entries == Purged(before, KeysOf(counters[..i]), now)
        invariant forall j | 0 <= j < i :: IsLive(before, counters[j].key, now) ==> before[counters[j].key].count < counters[j].limit
      {
        KeysOfAppend(counters, i);
        var e := LiveEntry(counters[i].key, now);
        if e.Some? && e.value.count >= counters[i].limit {
          FirstExhaustedIs(before, counters, now, i);
          return i, e.value.expires - now;
        }
      }
      assert counters[..|counters|] == counters;
      NoneExhausted(before, counters, now);
      return -1, 0;
    }

    method MirrorCharge(counters: seq<LoginCounter>, window: int, now: int) returns (dropped: nat, ghost room: Table)
      requires |entries| <= maxEntries && MAX_CHARGED <= maxEntries
      requires DistinctKeys(counters) && |counters| <= MAX_CHARGED
      modifies this`entries
      ensures var start := Purged(old(entries), KeysOf(counters), now);
              RoomMade(start, room, |KeysOf(counters) - start.Keys|, KeysOf(counters), maxEntries, now, dropped)
      ensures entries == Charged(room, counters, window, now, false)
    {
      dropped, room := Charge(counters, window, now, false);
    }

    /** exhaust: a counter that Redis reports as exhausted. */
    method Exhaust(c: LoginCounter, remaining: int, now: int) returns (dropped: nat, ghost room: Table)
      requires |entries| <= maxEntries && MAX_CHARGED <= maxEntries
      modifies this`entries
      ensures MarkedExhausted(old(entries), entries, c, remaining, now, maxEntries, dropped, room)
    {
      ghost var before := entries;
      var e := LiveEntry(c.key, now);
      SubsetSize(entries.Keys, before.Keys);
      room := entries;
      dropped := 0;
      if e.Some? && e.value.unshared > 0 {
        return;
      }
      if e == None {
        assert {c.key} - entries.Keys == {c.key};
        dropped := MakeRoom(1, {c.key}, now);
        room := entries;
      }
      entries := entries[c.key := Counter(c.limit, 0, c.limit, now + remaining)];
    }

    method Release(counters: seq<LoginCounter>, shared: bool, clearAccount: bool, now: int)
      modifies this`entries
      ensures entries == Released(old(entries), counters, shared, clearAccount, now)
    {
      for i := 0 to |counters|
        invariant Released(entries, counters[i..], shared, clearAccount, now) == Released(old(entries), counters, shared, clearAccount, now)
      {
        var c := counters[i];
        ghost var before := entries;
        assert counters[i..][1..] == counters[i + 1..];
        if clearAccount && c.key.Scope() != ScopeIP {
          entries := entries - {c.key};
        } else {
          var e := LiveEntry(c.key, now);
          if e.Some? {
            if e.value.count <= 1 {
              entries := entries - {c.key};
            } else {
              var n := e.value.(count := e.value.count - 1);
              if !shared && n.unshared > 0 {
                n := n.(unshared := n.unshared - 1);
              }
              entries := entries[c.key := n];
            }
          }
        }
        assert entries == ReleasedOne(before, c, shared, clearAccount, now);
      }
    }
  }

  lemma NeedGrows(before: set<Key>, after: set<Key>, keep: set<Key>, need: nat)
    requires after <= before && need <= |keep - before|
    ensures need <= |keep - after|
  {
    assert keep - before <= keep - after;
    SubsetSize(keep - before, keep - after);
  }

  /** What the second sweep does: enough entries go, or all that are neither kept nor exhausted. */
  ghost predicate BatchDropped(t: Table, t': Table, need: nat, keep: set<Key>, dropped: int) {
    && t'.Keys <= t.Keys && (forall k | k in t' :: t'[k] == t[k])
    && (forall k | k in t && k !in t' :: !Exhausted(t, k) && k !in keep)
    && dropped == |t| - |t'|
    && (dropped >= need || forall k | k in t' :: k in keep || Exhausted(t', k))
  }

  /** What the third sweep does: nothing when the need is met, else entries go until it is. */
  ghost predicate OthersDropped(t: Table, t': Table, need: nat, keep: set<Key>, maxEntries: nat, dropped: int) {
    && t'.Keys <= t.Keys && (forall k | k in t' :: t'[k] == t[k])
    && (forall k | k in t && k in keep :: k in t')
    && dropped == |t| - |t'| && |t'| + need <= maxEntries
    && (|t| + need <= maxEntries ==> t' == t)
  }

  lemma BatchNeed(t: Table, t': Table, need: nat, keep: set<Key>, dropped: int)
    requires BatchDropped(t, t', need, keep, dropped) && need <= |keep - t.Keys|
    ensures need <= |keep - t'.Keys|
  {
    NeedGrows(t.Keys, t'.Keys, keep, need);
  }

  /** The three sweeps of makeRoom taken together. */
  lemma RoomComposes(t: Table, swept: Table, rest: Table, t': Table, need: nat, keep: set<Key>, maxEntries: nat, now: int,
                     batch: nat, more: nat, dropped: nat)
    requires dropped == batch + more && swept == Live(t, now) && |swept| <= maxEntries
    requires BatchDropped(swept, rest, need, keep, batch)
    requires OthersDropped(rest, t', need, keep, maxEntries, more)
    ensures RoomMade(t, t', need, keep, maxEntries, now, dropped)
  {
    AllLive(swept, t', now);
    KeptStay(t, swept, rest, t', need, keep, maxEntries, now, batch, more);
    ExhaustedLast(t, swept, rest, t', need, keep, maxEntries, now, batch, more);
  }

  lemma KeptStay(t: Table, swept: Table, rest: Table, t': Table, need: nat, keep: set<Key>, maxEntries: nat, now: int,
                 batch: nat, more: nat)
    requires swept == Live(t, now)
    requires BatchDropped(swept, rest, need, keep, batch)
    requires OthersDropped(rest, t', need, keep, maxEntries, more)
    ensures t'.Keys <= t.Keys && (forall k | k in t' :: t'[k] == t[k])
    ensures forall k | k in keep && IsLive(t, k, now) :: k in t'
  {
    hide Exhausted;
    forall k | k in keep && IsLive(t, k, now) ensures k in t' {
      assert k in swept && k in rest;
    }
  }

  lemma ExhaustedLast(t: Table, swept: Table, rest: Table, t': Table, need: nat, keep: set<Key>, maxEntries: nat, now: int,
                      batch: nat, more: nat)
    requires swept == Live(t, now) && |swept| <= maxEntries
    requires BatchDropped(swept, rest, need, keep, batch)
    requires OthersDropped(rest, t', need, keep, maxEntries, more)
    ensures (exists k | k in t :: EvictedExhausted(t, t', k, now)) ==> forall k | k in t' :: k in keep || Exhausted(t', k)
  {
    if k :| k in t && EvictedExhausted(t, t', k, now) {
      assert k in swept && Exhausted(swept, k) && k in rest;
      assert t' != rest;
    }
  }

  /** When only kept entries are left, the kept ones that are missing fit as well. */
  lemma OnlyKept(before: set<Key>, after: set<Key>, keep: set<Key>, need: nat, maxEntries: nat)
    requires after <= before && after <= keep && before * keep <= after
    requires |keep| <= maxEntries && need <= |keep - before|
    ensures |after| + need <= maxEntries
  {
    assert keep - before == keep - after;
    assert keep == after + (keep - after);
  }

  /** The outcome of an attempt that the table decides: refused without a charge, or charged in full. */
  ghost predicate LocallyDecided(t: Table, t': Table, counters: seq<LoginCounter>, window: int, now: int, maxEntries: nat,
                                 blocked: int, retryAfter: int, dropped: nat, room: Table) {
    && blocked == FirstExhausted(t, counters, now)
    && (blocked >= 0 ==>
          && retryAfter == t[counters[blocked].key].expires - now && dropped == 0
          && t'.Keys <= t.Keys && Live(t', now) == Live(t, now) && forall k | k in t' :: t'[k] == t[k])
    && (blocked < 0 ==>
          var start := Purged(t, KeysOf(counters), now);
          && RoomMade(start, room, |KeysOf(counters) - start.Keys|, KeysOf(counters), maxEntries, now, dropped)
          && t' == Charged(room, counters, window, now, true))
  }

  /** The outcome of exhaust. */
  ghost predicate MarkedExhausted(t: Table, t': Table, c: LoginCounter, remaining: int, now: int, maxEntries: nat,
                                  dropped: nat, room: Table) {
    var start := Purged(t, {c.key}, now);
    if IsLive(t, c.key, now) && t[c.key].unshared > 0 then t' == room == start && dropped == 0
    else
      && (IsLive(t, c.key, now) ==> room == start && dropped == 0)
      && (!IsLive(t, c.key, now) ==> RoomMade(start, room, 1, {c.key}, maxEntries, now, dropped))
      && t' == room[c.key := Counter(c.limit, 0, c.limit, now + remaining)]
  }

  lemma KeysOfAppend(counters: seq<LoginCounter>, i: nat)
    requires i < |counters|
    ensures KeysOf(counters[..i + 1]) == KeysOf(counters[..i]) + {counters[i].key}
    ensures DistinctKeys(counters) ==> counters[i].key !in KeysOf(counters[..i])
  {
    assert counters[..i + 1] == counters[..i] + [counters[i]];
  }

  lemma {:induction false} KeysOfSize(counters: seq<LoginCounter>)
    requires DistinctKeys(counters)
    ensures |KeysOf(counters)| == |counters|
    decreases |counters|
  {
    if counters != [] {
      var n := |counters| - 1;
      KeysOfAppend(counters, n);
      KeysOfSize(counters[..n]);
      assert counters[..n + 1] == counters;
    }
  }

  lemma {:induction false} FirstExhaustedIs(t: Table, counters: seq<LoginCounter>, now: int, i: nat)
    requires i < |counters| && IsLive(t, counters[i].key, now) && t[counters[i].key].count >= counters[i].limit
    requires forall j | 0 <= j < i :: IsLive(t, counters[j].key, now) ==> t[counters[j].key].count < counters[j].limit
    ensures FirstExhausted(t, counters, now) == i
  {
  }

  lemma NoneExhausted(t: Table, counters: seq<LoginCounter>, now: int)
    requires forall j | 0 <= j < |counters| :: IsLive(t, counters[j].key, now) ==> t[counters[j].key].count < counters[j].limit
    ensures FirstExhausted(t, counters, now) == -1
  {
  }

  lemma PurgedNone(t: Table, counters: seq<LoginCounter>, now: int)
    ensures Purged(t, KeysOf(counters[..0]), now) == t && KeysOf(counters[..0]) == {}
  {
  }

  lemma MissingStep(t: Table, keys: set<Key>, k: Key, now: int)
    requires k !in keys
    ensures Purged(Purged(t, keys, now), {k}, now) == Purged(t, keys + {k}, now)
    ensures IsLive(Purged(t, keys, now), k, now) <==> IsLive(t, k, now)
    ensures IsLive(t, k, now) ==> k in Purged(t, keys, now) && Purged(t, keys, now)[k] == t[k]
    ensures |keys + {k} - Live(t, now).Keys| == |keys - Live(t, now).Keys| + if IsLive(t, k, now) then 0 else 1
  {
    hide Purged, Live;
    PurgedStep(t, keys, k, now);
    LiveKeys(t, now);
    MissingCount(Live(t, now).Keys, keys, k);
  }

  lemma PurgedStep(t: Table, keys: set<Key>, k: Key, now: int)
    ensures Purged(Purged(t, keys, now), {k}, now) == Purged(t, keys + {k}, now)
    ensures k !in keys ==> (IsLive(Purged(t, keys, now), k, now) <==> IsLive(t, k, now))
    ensures IsLive(t, k, now) ==> k in Purged(t, keys, now) && Purged(t, keys, now)[k] == t[k]
  {
  }

  lemma MissingCount(live: set<Key>, keys: set<Key>, k: Key)
    requires k !in keys
    ensures |keys + {k} - live| == |keys - live| + if k in live then 0 else 1
  {
    if k in live {
      assert keys + {k} - live == keys - live;
    } else {
      assert keys + {k} - live == (keys - live) + {k};
    }
  }

  lemma PurgedMissing(t: Table, keys: set<Key>, now: int)
    ensures keys - Purged(t, keys, now).Keys == keys - Live(t, now).Keys
  {
  }

  lemma PurgedTwice(t: Table, keys: set<Key>, now: int)
    ensures Purged(Purged(t, keys, now), keys, now) == Purged(t, keys, now)
  {
  }

  /** Among entries that are all live, as many live ones are lost as entries. */
  lemma AllLive(t: Table, t': Table, now: int)
    requires forall k | k in t :: now < t[k].expires
    requires t'.Keys <= t.Keys && forall k | k in t' :: t'[k] == t[k]
    ensures Live(t, now) == t && Live(t', now) == t'
  {
    assert forall k | k in t' :: now < t'[k].expires;
  }
}
