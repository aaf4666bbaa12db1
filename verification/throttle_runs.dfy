// Whole runs of the login throttle. While Redis answers, the process-local table repeats the counters
// in Redis, and holds them longer only by what the millisecond clock of Redis drops; so the first
// fallback decides as Redis would have. The table stays within its bounds whatever it evicts.
module ThrottleRuns {
  import opened Text
  import opened LoginCounters
  import opened LoginThrottle

  // ---------------------------------------------------------------------------------------------
  // Agreement with Redis
  // ---------------------------------------------------------------------------------------------

  predicate WholeMilliseconds(nanos: int) {
    nanos % MILLISECOND == 0
  }

  /** Both sides hold the counter of k, or neither does. */
  predicate Settled(s: State, k: Key, now: int) {
    IsLive(s.local, k, now) <==> Present(s.db, k, Millis(now))
  }

  /** The same counter on both sides; the table holds it longer, by at most drift nanoseconds. */
  predicate SameCounter(cfg: Config, k: Key, e: Counter, r: RedisEntry, drift: int) {
    && r.count == e.count && r.expires.Some? && 0 <= e.expires - r.expires.value * MILLISECOND <= drift
    && e.unshared == 0 && e.limit == Limit(cfg, k) && 1 <= e.count <= e.limit
  }

  predicate AgreeAt(cfg: Config, s: State, k: Key, now: int, drift: int) {
    IsLive(s.local, k, now) || Present(s.db, k, Millis(now)) ==>
      k in s.local && k in s.db && SameCounter(cfg, k, s.local[k], s.db[k], drift)
  }

  /** The counters of the table are those of Redis. */
  ghost predicate Agree(cfg: Config, s: State, now: int, drift: int) {
    forall k :: AgreeAt(cfg, s, k, now, drift)
  }

  lemma AgreeLater(cfg: Config, s: State, now: int, later: int, drift: int)
    requires Agree(cfg, s, now, drift) && now <= later
    ensures Agree(cfg, s, later, drift)
  {
    forall k ensures AgreeAt(cfg, s, k, later, drift) {
      assert AgreeAt(cfg, s, k, now, drift);
    }
  }

  /** What Redis holds the table holds; and what the table holds, Redis holds unless there is a drift. */
  lemma AgreeMeans(cfg: Config, s: State, k: Key, now: int, drift: int)
    requires AgreeAt(cfg, s, k, now, drift)
    ensures Present(s.db, k, Millis(now)) ==> IsLive(s.local, k, now)
    ensures drift == 0 ==> Settled(s, k, now)
  {
  }

  /** Without a drift the two sides cannot be told apart, now or later. */
  lemma ExactSettles(cfg: Config, s: State, now: int)
    requires Agree(cfg, s, now, 0)
    ensures forall k, later | now <= later :: Settled(s, k, later)
  {
    hide AgreeAt, Settled;
    forall k, later | now <= later ensures Settled(s, k, later) {
      AgreeLater(cfg, s, now, later, 0);
      assert AgreeAt(cfg, s, k, later, 0);
      AgreeMeans(cfg, s, k, later, 0);
    }
  }

  lemma NothingHeld(cfg: Config, s: State, cs: seq<LoginCounter>, now: int, drift: int)
    requires Agree(cfg, s, now, drift)
    ensures !Holds(s.local, cs, now)
  {
    forall c | c in cs ensures !(IsLive(s.local, c.key, now) && s.local[c.key].unshared > 0) {
      assert AgreeAt(cfg, s, c.key, now, drift);
    }
  }

  ghost predicate AllSettled(s: State, cs: seq<LoginCounter>, now: int) {
    forall k | k in KeysOf(cs) :: Settled(s, k, now)
  }

  lemma SettledAt(s: State, cs: seq<LoginCounter>, now: int, i: nat)
    requires AllSettled(s, cs, now) && i < |cs|
    ensures Settled(s, cs[i].key, now)
  {
    assert cs[i] in cs;
  }

  predicate Limits(cfg: Config, cs: seq<LoginCounter>) {
    forall i | 0 <= i < |cs| :: cs[i].limit == Limit(cfg, cs[i].key) > 0
  }

  /** Table and Redis refuse the same attempts, for the same counter. */
  lemma {:induction false} SameVerdict(cfg: Config, s: State, cs: seq<LoginCounter>, now: int, drift: int)
    requires Agree(cfg, s, now, drift) && Limits(cfg, cs) && AllSettled(s, cs, now)
    ensures FirstExhausted(s.local, cs, now) == FirstFull(s.db, cs, Millis(now))
    decreases |cs|
  {
    hide KeysOf;
    if cs != [] {
      assert AgreeAt(cfg, s, cs[0].key, now, drift);
      SettledAt(s, cs, now, 0);
      SettledTail(s, cs, now);
      SameVerdict(cfg, s, cs[1..], now, drift);
    }
  }

  lemma SettledTail(s: State, cs: seq<LoginCounter>, now: int)
    requires cs != [] && AllSettled(s, cs, now)
    ensures AllSettled(s, cs[1..], now)
  {
    hide Settled;
    KeysOfCons(cs);
  }

  /** What Redis refuses the table refuses, settled or not. */
  lemma {:induction false} NoLaxer(cfg: Config, s: State, cs: seq<LoginCounter>, now: int, drift: int)
    requires Agree(cfg, s, now, drift) && Limits(cfg, cs)
    ensures FirstFull(s.db, cs, Millis(now)) >= 0 ==> FirstExhausted(s.local, cs, now) >= 0
    decreases |cs|
  {
    if cs != [] {
      assert AgreeAt(cfg, s, cs[0].key, now, drift);
      NoLaxer(cfg, s, cs[1..], now, drift);
    }
  }

  lemma LiveAt(t: Table, mid: Table, k: Key, now: int)
    requires SameLive(t, mid, now)
    ensures IsLive(mid, k, now) <==> IsLive(t, k, now)
    ensures IsLive(t, k, now) ==> mid[k] == t[k]
  {
    LiveKeys(t, now);
    LiveKeys(mid, now);
    assert k in Live(mid, now) <==> k in Live(t, now);
  }

  lemma PurgedAt(t: Table, keys: set<Key>, k: Key, now: int)
    ensures IsLive(Purged(t, keys, now), k, now) <==> IsLive(t, k, now)
    ensures IsLive(t, k, now) ==> Purged(t, keys, now)[k] == t[k]
    ensures k in keys ==> (k in Purged(t, keys, now) <==> IsLive(t, k, now))
  {
  }

  lemma RoomAt(t: Table, room: Table, need: nat, keep: set<Key>, maxEntries: nat, k: Key, now: int)
    requires RoomMade(t, room, need, keep, maxEntries, now, 0)
    ensures IsLive(room, k, now) <==> IsLive(t, k, now)
    ensures IsLive(t, k, now) ==> room[k] == t[k]
    ensures k in room ==> k in t
  {
    NothingDropped(t, room, need, keep, maxEntries, now);
    LiveKeys(t, now);
    LiveKeys(room, now);
    assert k in Live(room, now) <==> k in Live(t, now);
  }

  /** The entry of k after an allowed attempt that dropped nothing. */
  lemma MirrorAt(t: Table, mid: Table, room: Table, cs: seq<LoginCounter>, window: int, now: int, maxEntries: nat, need: nat, k: Key)
    requires SameLive(t, mid, now) && window > 0 && DistinctKeys(cs)
    requires RoomMade(Purged(mid, KeysOf(cs), now), room, need, KeysOf(cs), maxEntries, now, 0)
    ensures var t' := Charged(room, cs, window, now, false);
            && (!HasKey(cs, k) ==>
                  && (IsLive(t', k, now) <==> IsLive(t, k, now))
                  && (IsLive(t, k, now) ==> t'[k] == t[k]))
            && (forall i | 0 <= i < |cs| && cs[i].key == k ::
                  && IsLive(t', k, now)
                  && t'[k] == if IsLive(t, k, now) then t[k].(count := t[k].count + 1, limit := cs[i].limit)
                              else Counter(1, 0, cs[i].limit, now + window))
  {
    hide Charged, RoomMade, Purged, SameLive, KeysOf;
    LiveAt(t, mid, k, now);
    PurgedAt(mid, KeysOf(cs), k, now);
    RoomAt(Purged(mid, KeysOf(cs), now), room, need, KeysOf(cs), maxEntries, k, now);
    KeysOfHas(cs, k);
    if !HasKey(cs, k) {
      ChargedOther(room, cs, window, now, false, k);
    }
    forall i | 0 <= i < |cs| && cs[i].key == k
      ensures var t' := Charged(room, cs, window, now, false);
              IsLive(t', k, now) && t'[k] == if IsLive(t, k, now) then t[k].(count := t[k].count + 1, limit := cs[i].limit)
                                             else Counter(1, 0, cs[i].limit, now + window)
    {
      ChargedOne(room, cs, window, now, false, i);
    }
  }

  lemma {:induction false} IncrOther(db: Db, cs: seq<LoginCounter>, window: int, now: int, k: Key)
    requires !HasKey(cs, k)
    ensures k in IncrAll(db, cs, window, now) <==> k in db
    ensures k in db ==> IncrAll(db, cs, window, now)[k] == db[k]
    decreases |cs|
  {
    if cs != [] {
      assert cs[0].key != k;
      assert forall i | 0 <= i < |cs| - 1 :: cs[1..][i] == cs[i + 1];
      IncrOther(IncrOne(db, cs[0].key, window, now), cs[1..], window, now, k);
    }
  }

  lemma {:induction false} IncrAt(db: Db, cs: seq<LoginCounter>, window: int, now: int, i: nat)
    requires DistinctKeys(cs) && i < |cs|
    ensures var k := cs[i].key; var db1, db' := IncrOne(db, k, window, now), IncrAll(db, cs, window, now);
            (k in db' <==> k in db1) && (k in db1 ==> db'[k] == db1[k])
    decreases |cs|
  {
    hide IncrOne;
    var db1 := IncrOne(db, cs[0].key, window, now);
    if i == 0 {
      assert !HasKey(cs[1..], cs[0].key);
      IncrOther(db1, cs[1..], window, now, cs[0].key);
    } else {
      IncrAt(db1, cs[1..], window, now, i - 1);
      assert cs[i].key != cs[0].key;
      IncrOneApart(db, cs[0].key, cs[i].key, window, now);
    }
  }

  lemma IncrOneApart(db: Db, other: Key, k: Key, window: int, now: int)
    requires other != k
    ensures var db1, db2 := IncrOne(db, k, window, now), IncrOne(IncrOne(db, other, window, now), k, window, now);
            (k in db2 <==> k in db1) && (k in db1 ==> db2[k] == db1[k])
  {
  }

  /** How far apart the two expiries of a counter charged at this time can be. */
  predicate Within(cfg: Config, now: int, drift: int) {
    now % MILLISECOND + cfg.window % MILLISECOND <= drift
  }

  /** An allowed attempt keeps the agreement at k. */
  lemma {:induction false} ChargeAgreesAt(cfg: Config, s: State, t': Table, cs: seq<LoginCounter>, now: int, drift: int, k: Key)
    requires AgreeAt(cfg, s, k, now, drift) && Limits(cfg, cs) && DistinctKeys(cs) && cfg.window >= MILLISECOND
    requires Within(cfg, now, drift) && AllSettled(s, cs, now)
    requires FirstFull(s.db, cs, Millis(now)) < 0
    requires !HasKey(cs, k) ==> (IsLive(t', k, now) <==> IsLive(s.local, k, now)) && (IsLive(s.local, k, now) ==> t'[k] == s.local[k])
    requires forall i | 0 <= i < |cs| && cs[i].key == k ::
               && IsLive(t', k, now)
               && t'[k] == if IsLive(s.local, k, now) then s.local[k].(count := s.local[k].count + 1, limit := cs[i].limit)
                           else Counter(1, 0, cs[i].limit, now + cfg.window)
    ensures AgreeAt(cfg, State(t', IncrAll(s.db, cs, Millis(cfg.window), Millis(now))), k, now, drift)
  {
    hide IncrAll, FirstFull, DistinctKeys, AllSettled;
    var window, at := Millis(cfg.window), Millis(now);
    if HasKey(cs, k) {
      var i :| 0 <= i < |cs| && cs[i].key == k;
      IncrAt(s.db, cs, window, at, i);
      NotFull(s.db, cs, at, i);
      SettledAt(s, cs, now, i);
      ChargedOnceAgrees(cfg, s, t', cs[i], IncrAll(s.db, cs, window, at), now, drift);
    } else {
      IncrOther(s.db, cs, window, at, k);
    }
  }

  lemma NotFull(db: Db, cs: seq<LoginCounter>, now: int, i: nat)
    requires FirstFull(db, cs, now) < 0 && i < |cs|
    ensures Get(db, cs[i].key, now) < cs[i].limit
  {
  }

  /** One counter that both sides charge. */
  lemma {:induction false} ChargedOnceAgrees(cfg: Config, s: State, t': Table, c: LoginCounter, db': Db, now: int, drift: int)
    requires AgreeAt(cfg, s, c.key, now, drift) && Settled(s, c.key, now)
    requires c.limit == Limit(cfg, c.key) > 0 && cfg.window >= MILLISECOND && Get(s.db, c.key, Millis(now)) < c.limit
    requires Within(cfg, now, drift)
    requires var db1 := IncrOne(s.db, c.key, Millis(cfg.window), Millis(now));
             (c.key in db' <==> c.key in db1) && (c.key in db1 ==> db'[c.key] == db1[c.key])
    requires IsLive(t', c.key, now)
    requires t'[c.key] == if IsLive(s.local, c.key, now) then s.local[c.key].(count := s.local[c.key].count + 1, limit := c.limit)
                          else Counter(1, 0, c.limit, now + cfg.window)
    ensures AgreeAt(cfg, State(t', db'), c.key, now, drift)
  {
  }

  lemma AllowedAgrees(cfg: Config, maxEntries: nat, s: State, s': State, cs: seq<LoginCounter>, now: int, drift: int, a: Attempt, w: Course)
    requires cs != [] && cfg.window >= MILLISECOND && Limits(cfg, cs) && DistinctKeys(cs)
    requires Within(cfg, now, drift) && AllSettled(s, cs, now)
    requires Agree(cfg, s, now, drift) && Mirrored(cfg, maxEntries, s, s', cs, now, a, w) && w.dropped == 0 && a.allowed
    ensures Agree(cfg, s', now, drift)
  {
    hide IncrAll, Charged, RoomMade, SameLive, Purged, KeysOf, Holds, Limits, DistinctKeys, MarkedExhausted, Within, AllSettled;
    var start := Purged(w.mid, KeysOf(cs), now);
    forall k ensures AgreeAt(cfg, s', k, now, drift) {
      MirrorAt(s.local, w.mid, w.room, cs, cfg.window, now, maxEntries, |KeysOf(cs) - start.Keys|, k);
      ChargeAgreesAt(cfg, s, s'.local, cs, now, drift, k);
    }
  }

  /** The condition is exact: an allowed attempt on a counter that only the table still holds ends the agreement. */
  lemma ChargeAgreesExactly(cfg: Config, maxEntries: nat, s: State, s': State, cs: seq<LoginCounter>, now: int, drift: int, a: Attempt, w: Course)
    requires cs != [] && cfg.window >= MILLISECOND && Limits(cfg, cs) && DistinctKeys(cs) && Within(cfg, now, drift)
    requires Agree(cfg, s, now, drift) && Mirrored(cfg, maxEntries, s, s', cs, now, a, w) && w.dropped == 0 && a.allowed
    ensures Agree(cfg, s', now, drift) <==> AllSettled(s, cs, now)
  {
    hide Mirrored, Agree, AgreeAt, Settled, DistinctKeys, Limits, KeysOf;
    if AllSettled(s, cs, now) {
      AllowedAgrees(cfg, maxEntries, s, s', cs, now, drift, a, w);
    } else {
      var k :| k in KeysOf(cs) && !Settled(s, k, now);
      KeysOfHas(cs, k);
      var i :| 0 <= i < |cs| && cs[i].key == k;
      UnsettledCharge(cfg, maxEntries, s, s', cs, now, drift, a, w, i);
    }
  }

  lemma UnsettledCharge(cfg: Config, maxEntries: nat, s: State, s': State, cs: seq<LoginCounter>, now: int, drift: int, a: Attempt, w: Course, i: nat)
    requires cs != [] && cfg.window >= MILLISECOND && Limits(cfg, cs) && DistinctKeys(cs) && Within(cfg, now, drift)
    requires Agree(cfg, s, now, drift) && Mirrored(cfg, maxEntries, s, s', cs, now, a, w) && w.dropped == 0 && a.allowed
    requires i < |cs| && !Settled(s, cs[i].key, now)
    ensures !Agree(cfg, s', now, drift)
  {
    hide IncrAll, Charged, RoomMade, SameLive, Purged, KeysOf, Holds, Limits, DistinctKeys, MarkedExhausted, Within, FirstFull;
    var start, k := Purged(w.mid, KeysOf(cs), now), cs[i].key;
    assert AgreeAt(cfg, s, k, now, drift);
    MirrorAt(s.local, w.mid, w.room, cs, cfg.window, now, maxEntries, |KeysOf(cs) - start.Keys|, k);
    IncrAt(s.db, cs, Millis(cfg.window), Millis(now), i);
    assert !AgreeAt(cfg, s', k, now, drift);
  }

  /** What a refusal leaves: the counter that Redis named, marked full for the milliseconds it has left. */
  lemma RefusedMark(cfg: Config, maxEntries: nat, s: State, s': State, cs: seq<LoginCounter>, now: int, drift: int, a: Attempt, w: Course)
    requires cs != [] && cfg.window > 0 && Limits(cfg, cs)
    requires Agree(cfg, s, now, drift) && Mirrored(cfg, maxEntries, s, s', cs, now, a, w) && !a.allowed
    ensures AskedReply(cfg, s.db, cs, now).index > 0
    ensures var c := cs[AskedReply(cfg, s.db, cs, now).index - 1];
            && s'.db == s.db && Present(s.db, c.key, Millis(now)) && s.db[c.key].count == c.limit == Limit(cfg, c.key)
            && s.db[c.key].expires.Some?
            && c.key in s'.local
            && s'.local[c.key] == Counter(c.limit, 0, c.limit, s.db[c.key].expires.value * MILLISECOND + now % MILLISECOND)
            && IsLive(s'.local, c.key, now)
            && forall k | k != c.key :: (IsLive(s'.local, k, now) <==> IsLive(s.local, k, now))
                                        && (IsLive(s.local, k, now) ==> s'.local[k] == s.local[k])
  {
    hide RoomMade, SameLive, Purged, Holds, KeysOf, IncrAll;
    var r := AskedReply(cfg, s.db, cs, now);
    var c := cs[r.index - 1];
    assert AgreeAt(cfg, s, c.key, now, drift);
    LiveAt(s.local, w.mid, c.key, now);
    PurgedAt(w.mid, {c.key}, c.key, now);
    forall k | k != c.key
      ensures IsLive(s'.local, k, now) <==> IsLive(s.local, k, now)
      ensures IsLive(s.local, k, now) ==> s'.local[k] == s.local[k]
    {
      LiveAt(s.local, w.mid, k, now);
      PurgedAt(w.mid, {c.key}, k, now);
    }
  }

  lemma RefusedAgrees(cfg: Config, maxEntries: nat, s: State, s': State, cs: seq<LoginCounter>, now: int, drift: int, a: Attempt, w: Course)
    requires cs != [] && cfg.window > 0 && Limits(cfg, cs) && now % MILLISECOND <= drift
    requires Agree(cfg, s, now, drift) && Mirrored(cfg, maxEntries, s, s', cs, now, a, w) && !a.allowed
    ensures Agree(cfg, s', now, drift)
  {
    hide Mirrored;
    RefusedMark(cfg, maxEntries, s, s', cs, now, drift, a, w);
    forall k ensures AgreeAt(cfg, s', k, now, drift) {
      assert AgreeAt(cfg, s, k, now, drift);
    }
  }

  /** One attempt that Redis decides, without an eviction of a live counter. */
  lemma AcquireAgrees(cfg: Config, maxEntries: nat, s: State, s': State, account: string, ip: string, now: int, drift: int, a: Attempt, w: Course)
    requires cfg.window > 0 ==> cfg.window >= MILLISECOND
    requires Within(cfg, now, drift) && (a.allowed ==> AllSettled(s, CountersFor(cfg, account, ip), now))
    requires Agree(cfg, s, now, drift) && Acquired(cfg, maxEntries, s, s', account, ip, now, a, w)
    requires w.dropped == 0 && (w.answered || Holds(s.local, CountersFor(cfg, account, ip), now) || CountersFor(cfg, account, ip) == [])
    ensures Agree(cfg, s', now, drift)
  {
    hide Mirrored, FellBack, Holds, AllSettled;
    var cs := CountersFor(cfg, account, ip);
    NothingHeld(cfg, s, cs, now, drift);
    if cs != [] {
      if a.allowed {
        AllowedAgrees(cfg, maxEntries, s, s', cs, now, drift, a, w);
      } else {
        RefusedAgrees(cfg, maxEntries, s, s', cs, now, drift, a, w);
      }
    }
  }

  // Handing back an attempt that Redis had counted.

  /** The counter is deleted, not given one slot back. */
  predicate Cleared(c: LoginCounter, clearAccount: bool) {
    clearAccount && c.key.Scope() != ScopeIP
  }

  function ReleaseMode(c: LoginCounter, clearAccount: bool): Mode {
    if Cleared(c, clearAccount) then Clear else Refund
  }

  /** A slot of the counter can be given back on both sides, or is the last one that the table has left. */
  predicate Refundable(s: State, k: Key, now: int) {
    Settled(s, k, now) || (k in s.local && s.local[k].count == 1)
  }

  ghost predicate Releasable(s: State, cs: seq<LoginCounter>, clearAccount: bool, now: int) {
    forall i | 0 <= i < |cs| :: Cleared(cs[i], clearAccount) || Refundable(s, cs[i].key, now)
  }

  ghost predicate SameEntry<V>(m: map<Key, V>, n: map<Key, V>, k: Key) {
    (k in m <==> k in n) && (k in m ==> m[k] == n[k])
  }

  /** Whether two sides agree on a counter depends on its entries alone. */
  lemma AgreeAtSame(cfg: Config, s: State, s': State, k: Key, now: int, drift: int)
    requires SameEntry(s.local, s'.local, k) && SameEntry(s.db, s'.db, k)
    ensures AgreeAt(cfg, s, k, now, drift) <==> AgreeAt(cfg, s', k, now, drift)
  {
  }

  lemma {:induction false} ReleasedElse(t: Table, cs: seq<LoginCounter>, shared: bool, clearAccount: bool, now: int, k: Key)
    requires !HasKey(cs, k)
    ensures SameEntry(Released(t, cs, shared, clearAccount, now), t, k)
    decreases |cs|
  {
    if cs != [] {
      assert cs[0].key != k;
      assert forall i | 0 <= i < |cs| - 1 :: cs[1..][i] == cs[i + 1];
      ReleasedElse(ReleasedOne(t, cs[0], shared, clearAccount, now), cs[1..], shared, clearAccount, now, k);
    }
  }

  /** A counter of the attempt is released exactly once. */
  lemma {:induction false} ReleasedAt(t: Table, cs: seq<LoginCounter>, shared: bool, clearAccount: bool, now: int, i: nat)
    requires DistinctKeys(cs) && i < |cs|
    ensures SameEntry(Released(t, cs, shared, clearAccount, now), ReleasedOne(t, cs[i], shared, clearAccount, now), cs[i].key)
    decreases |cs|
  {
    hide ReleasedOne;
    var t1 := ReleasedOne(t, cs[0], shared, clearAccount, now);
    if i == 0 {
      assert !HasKey(cs[1..], cs[0].key);
      ReleasedElse(t1, cs[1..], shared, clearAccount, now, cs[0].key);
    } else {
      ReleasedAt(t1, cs[1..], shared, clearAccount, now, i - 1);
      assert cs[i].key != cs[0].key;
      ReleasedApart(t, cs[0], cs[i], shared, clearAccount, now);
    }
  }

  lemma ReleasedApart(t: Table, other: LoginCounter, c: LoginCounter, shared: bool, clearAccount: bool, now: int)
    requires other.key != c.key
    ensures SameEntry(ReleasedOne(ReleasedOne(t, other, shared, clearAccount, now), c, shared, clearAccount, now),
                      ReleasedOne(t, c, shared, clearAccount, now), c.key)
  {
  }

  /** Handing back a slot that Redis has counted names every counter. */
  lemma ReleaseModesFirst(cs: seq<LoginCounter>, clearAccount: bool)
    requires cs != []
    ensures var modes := ReleaseModes(cs, true, clearAccount);
            modes != [] && modes[0] == (cs[0].key, ReleaseMode(cs[0], clearAccount)) && modes[1..] == ReleaseModes(cs[1..], true, clearAccount)
  {
    assert ReleaseModes(cs, true, clearAccount) == [(cs[0].key, ReleaseMode(cs[0], clearAccount))] + ReleaseModes(cs[1..], true, clearAccount);
  }

  lemma {:induction false} ReleaseAllElse(db: Db, cs: seq<LoginCounter>, clearAccount: bool, now: int, k: Key)
    requires !HasKey(cs, k)
    ensures SameEntry(ReleaseAll(db, ReleaseModes(cs, true, clearAccount), now), db, k)
    decreases |cs|
  {
    if cs != [] {
      assert cs[0].key != k;
      assert forall i | 0 <= i < |cs| - 1 :: cs[1..][i] == cs[i + 1];
      ReleaseModesFirst(cs, clearAccount);
      ReleaseAllElse(ReleaseKey(db, cs[0].key, ReleaseMode(cs[0], clearAccount), now), cs[1..], clearAccount, now, k);
    }
  }

  lemma {:induction false} ReleaseAllAt(db: Db, cs: seq<LoginCounter>, clearAccount: bool, now: int, i: nat)
    requires DistinctKeys(cs) && i < |cs|
    ensures SameEntry(ReleaseAll(db, ReleaseModes(cs, true, clearAccount), now),
                      ReleaseKey(db, cs[i].key, ReleaseMode(cs[i], clearAccount), now), cs[i].key)
    decreases |cs|
  {
    hide ReleaseKey, ReleaseMode;
    ReleaseModesFirst(cs, clearAccount);
    var db1 := ReleaseKey(db, cs[0].key, ReleaseMode(cs[0], clearAccount), now);
    if i == 0 {
      assert !HasKey(cs[1..], cs[0].key);
      ReleaseAllElse(db1, cs[1..], clearAccount, now, cs[0].key);
    } else {
      ReleaseAllAt(db1, cs[1..], clearAccount, now, i - 1);
      assert cs[i].key != cs[0].key;
      ReleaseApart(db, cs[0].key, ReleaseMode(cs[0], clearAccount), cs[i].key, ReleaseMode(cs[i], clearAccount), now);
    }
  }

  lemma ReleaseApart(db: Db, other: Key, first: Mode, k: Key, mode: Mode, now: int)
    requires other != k
    ensures SameEntry(ReleaseKey(ReleaseKey(db, other, first, now), k, mode, now), ReleaseKey(db, k, mode, now), k)
  {
  }

  function HandedBack(s: State, cs: seq<LoginCounter>, clearAccount: bool, now: int): State {
    State(Released(s.local, cs, true, clearAccount, now), ReleaseAll(s.db, ReleaseModes(cs, true, clearAccount), Millis(now)))
  }

  function OneHandedBack(s: State, c: LoginCounter, clearAccount: bool, now: int): State {
    State(ReleasedOne(s.local, c, true, clearAccount, now), ReleaseKey(s.db, c.key, ReleaseMode(c, clearAccount), Millis(now)))
  }

  /** One counter handed back: the sides still agree on it exactly when it is deleted or a slot can be given back. */
  lemma ReleaseOneExactly(cfg: Config, s: State, c: LoginCounter, clearAccount: bool, now: int, drift: int)
    requires AgreeAt(cfg, s, c.key, now, drift)
    ensures AgreeAt(cfg, OneHandedBack(s, c, clearAccount, now), c.key, now, drift)
        <==> Cleared(c, clearAccount) || Refundable(s, c.key, now)
  {
  }

  lemma ReleaseOneKeeps(cfg: Config, s: State, c: LoginCounter, clearAccount: bool, now: int, drift: int)
    requires Agree(cfg, s, now, drift) && (Cleared(c, clearAccount) || Refundable(s, c.key, now))
    ensures Agree(cfg, OneHandedBack(s, c, clearAccount, now), now, drift)
    ensures forall k | Refundable(s, k, now) :: Refundable(OneHandedBack(s, c, clearAccount, now), k, now)
  {
    hide Cleared;
    var s' := OneHandedBack(s, c, clearAccount, now);
    assert AgreeAt(cfg, s, c.key, now, drift);
    ReleaseOneExactly(cfg, s, c, clearAccount, now, drift);
    forall k ensures AgreeAt(cfg, s', k, now, drift) {
      assert AgreeAt(cfg, s, k, now, drift);
    }
    forall k | Refundable(s, k, now) ensures Refundable(s', k, now) {
      if k == c.key {
        RefundSettles(cfg, s, c, clearAccount, now, drift);
      }
    }
  }

  lemma RefundSettles(cfg: Config, s: State, c: LoginCounter, clearAccount: bool, now: int, drift: int)
    requires AgreeAt(cfg, s, c.key, now, drift) && (Cleared(c, clearAccount) || Refundable(s, c.key, now))
    ensures Settled(OneHandedBack(s, c, clearAccount, now), c.key, now)
  {
  }

  /** Also for a list that names a counter twice. */
  lemma {:induction false} ReleaseAgrees(cfg: Config, s: State, cs: seq<LoginCounter>, clearAccount: bool, now: int, drift: int)
    requires Agree(cfg, s, now, drift) && Releasable(s, cs, clearAccount, now)
    ensures Agree(cfg, HandedBack(s, cs, clearAccount, now), now, drift)
    decreases |cs|
  {
    hide Agree, Refundable, Cleared, ReleaseMode, ReleasedOne, ReleaseKey;
    if cs != [] {
      var s1 := OneHandedBack(s, cs[0], clearAccount, now);
      ReleaseOneKeeps(cfg, s, cs[0], clearAccount, now, drift);
      assert forall i | 0 <= i < |cs| - 1 :: cs[1..][i] == cs[i + 1];
      ReleaseAgrees(cfg, s1, cs[1..], clearAccount, now, drift);
      ReleaseModesFirst(cs, clearAccount);
    }
  }

  /** A whole attempt handed back. */
  lemma ReleaseAgreesExactly(cfg: Config, s: State, cs: seq<LoginCounter>, clearAccount: bool, now: int, drift: int)
    requires Agree(cfg, s, now, drift) && DistinctKeys(cs)
    ensures Agree(cfg, HandedBack(s, cs, clearAccount, now), now, drift) <==> Releasable(s, cs, clearAccount, now)
  {
    hide Refundable, Cleared, AgreeAt, Released, ReleaseAll, ReleaseModes, OneHandedBack, HandedBack, DistinctKeys;
    if Releasable(s, cs, clearAccount, now) {
      ReleaseAgrees(cfg, s, cs, clearAccount, now, drift);
    }
    if Agree(cfg, HandedBack(s, cs, clearAccount, now), now, drift) {
      forall i | 0 <= i < |cs| ensures Cleared(cs[i], clearAccount) || Refundable(s, cs[i].key, now) {
        var k := cs[i].key;
        HandedBackAt(s, cs, clearAccount, now, i);
        AgreeAtSame(cfg, HandedBack(s, cs, clearAccount, now), OneHandedBack(s, cs[i], clearAccount, now), k, now, drift);
        assert AgreeAt(cfg, s, k, now, drift) && AgreeAt(cfg, HandedBack(s, cs, clearAccount, now), k, now, drift);
        ReleaseOneExactly(cfg, s, cs[i], clearAccount, now, drift);
      }
    }
  }

  lemma HandedBackAt(s: State, cs: seq<LoginCounter>, clearAccount: bool, now: int, i: nat)
    requires DistinctKeys(cs) && i < |cs|
    ensures SameEntry(HandedBack(s, cs, clearAccount, now).local, OneHandedBack(s, cs[i], clearAccount, now).local, cs[i].key)
    ensures SameEntry(HandedBack(s, cs, clearAccount, now).db, OneHandedBack(s, cs[i], clearAccount, now).db, cs[i].key)
  {
    hide Released, ReleaseAll, ReleaseModes, ReleasedOne, ReleaseKey, ReleaseMode, SameEntry, DistinctKeys;
    ReleasedAt(s.local, cs, true, clearAccount, now, i);
    ReleaseAllAt(s.db, cs, clearAccount, Millis(now), i);
  }

  // ---------------------------------------------------------------------------------------------
  // Runs in which Redis answers
  // ---------------------------------------------------------------------------------------------

  datatype Op = AcquireOp(account: string, ip: string) | ReleaseOp(a: Attempt, clearAccount: bool)

  /** Redis answers when it is asked, and no live counter is evicted. */
  ghost predicate AnsweredStep(cfg: Config, maxEntries: nat, s: State, s': State, op: Op, now: int, a: Attempt, w: Course) {
    match op
    case AcquireOp(account, ip) =>
      && Acquired(cfg, maxEntries, s, s', account, ip, now, a, w)
      && w.dropped == 0
      && (w.answered || Holds(s.local, CountersFor(cfg, account, ip), now) || CountersFor(cfg, account, ip) == [])
    case ReleaseOp(a, clearAccount) =>
      a.shared && s' == Handed(s, a, clearAccount, true, now)
  }

  datatype Event = Event(op: Op, now: int, a: Attempt, w: Course)

  ghost predicate AnsweredRun(cfg: Config, maxEntries: nat, states: seq<State>, events: seq<Event>) {
    && |states| == |events| + 1 && states[0] == State(map[], map[])
    && (forall i | 0 <= i < |events| ::
          AnsweredStep(cfg, maxEntries, states[i], states[i + 1], events[i].op, events[i].now, events[i].a, events[i].w))
    && (forall i, j | 0 <= i <= j < |events| :: events[i].now <= events[j].now)
  }

  /** The event does not touch a counter in the moment that only the table still holds it, or touches it without effect. */
  ghost predicate QuietEvent(cfg: Config, s: State, e: Event) {
    match e.op
    case AcquireOp(account, ip) => e.a.allowed ==> AllSettled(s, CountersFor(cfg, account, ip), e.now)
    case ReleaseOp(a, clearAccount) => a.allowed ==> Releasable(s, a.counters, clearAccount, e.now)
  }

  ghost predicate Quiet(cfg: Config, states: seq<State>, events: seq<Event>)
    requires |states| == |events| + 1
  {
    forall i | 0 <= i < |events| :: QuietEvent(cfg, states[i], events[i])
  }

  /**
   * After every such run the table repeats Redis, up to the drift of the two clocks. When window and
   * clock readings are whole milliseconds the drift is zero, nothing has to be quiet, and the table
   * is a copy.
   */
  lemma {:induction false} Simulation(cfg: Config, maxEntries: nat, states: seq<State>, events: seq<Event>, now: int, drift: int)
    requires AnsweredRun(cfg, maxEntries, states, events) && (cfg.window > 0 ==> cfg.window >= MILLISECOND)
    requires forall i | 0 <= i < |events| :: events[i].now <= now && Within(cfg, events[i].now, drift)
    requires drift == 0 || Quiet(cfg, states, events)
    ensures Agree(cfg, states[|events|], now, drift)
    decreases |events|
  {
    hide Agree, AnsweredStep, QuietEvent, Within;
    if events == [] {
      NothingAgrees(cfg, now, drift);
    } else {
      var n := |events| - 1;
      var e := events[n];
      Simulation(cfg, maxEntries, states[..n + 1], events[..n], e.now, drift);
      if drift == 0 {
        ExactIsQuiet(cfg, states[n], e);
      }
      StepAgrees(cfg, maxEntries, states[n], states[n + 1], e, drift);
      AgreeLater(cfg, states[n + 1], e.now, now, drift);
    }
  }

  /** The attempts that are handed back charged no counter twice, as no attempt does. */
  ghost predicate DistinctReleases(events: seq<Event>) {
    forall i | 0 <= i < |events| && events[i].op.ReleaseOp? :: DistinctKeys(events[i].op.a.counters)
  }

  ghost predicate AgreeThroughout(cfg: Config, states: seq<State>, events: seq<Event>, drift: int)
    requires |states| == |events| + 1
  {
    forall i | 0 <= i < |events| :: Agree(cfg, states[i + 1], events[i].now, drift)
  }

  /** Over a whole run: the agreement holds after every event exactly when every event is quiet. */
  lemma SimulationExactly(cfg: Config, maxEntries: nat, states: seq<State>, events: seq<Event>, drift: int)
    requires AnsweredRun(cfg, maxEntries, states, events) && (cfg.window > 0 ==> cfg.window >= MILLISECOND)
    requires DistinctReleases(events) && forall i | 0 <= i < |events| :: Within(cfg, events[i].now, drift)
    ensures AgreeThroughout(cfg, states, events, drift) <==> Quiet(cfg, states, events)
  {
    hide Agree, AnsweredStep, QuietEvent, Within, DistinctKeys;
    if AgreeThroughout(cfg, states, events, drift) {
      forall i | 0 <= i < |events| ensures QuietEvent(cfg, states[i], events[i]) {
        AgreeBefore(cfg, maxEntries, states, events, drift, i);
        StepAgreesExactly(cfg, maxEntries, states[i], states[i + 1], events[i], drift);
      }
    }
    if Quiet(cfg, states, events) {
      forall i | 0 <= i < |events| ensures Agree(cfg, states[i + 1], events[i].now, drift) {
        PrefixOfRun(cfg, maxEntries, states, events, i + 1);
        Simulation(cfg, maxEntries, states[..i + 2], events[..i + 1], events[i].now, drift);
      }
    }
  }

  lemma AgreeBefore(cfg: Config, maxEntries: nat, states: seq<State>, events: seq<Event>, drift: int, i: nat)
    requires AnsweredRun(cfg, maxEntries, states, events) && AgreeThroughout(cfg, states, events, drift) && i < |events|
    ensures Agree(cfg, states[i], events[i].now, drift)
  {
    hide Agree, AnsweredStep;
    if i == 0 {
      NothingAgrees(cfg, events[0].now, drift);
    } else {
      var last := i - 1;
      assert Agree(cfg, states[last + 1], events[last].now, drift);
      AgreeLater(cfg, states[i], events[last].now, events[i].now, drift);
    }
  }

  lemma PrefixOfRun(cfg: Config, maxEntries: nat, states: seq<State>, events: seq<Event>, n: nat)
    requires AnsweredRun(cfg, maxEntries, states, events) && n <= |events|
    ensures AnsweredRun(cfg, maxEntries, states[..n + 1], events[..n])
    ensures Quiet(cfg, states, events) ==> Quiet(cfg, states[..n + 1], events[..n])
  {
    hide AnsweredStep, QuietEvent;
  }

  lemma NothingAgrees(cfg: Config, now: int, drift: int)
    ensures Agree(cfg, State(map[], map[]), now, drift)
  {
  }

  lemma ExactAllSettled(cfg: Config, s: State, cs: seq<LoginCounter>, now: int)
    requires Agree(cfg, s, now, 0)
    ensures AllSettled(s, cs, now)
  {
    hide AgreeAt, Settled;
    ExactSettles(cfg, s, now);
  }

  lemma ExactIsQuiet(cfg: Config, s: State, e: Event)
    requires Agree(cfg, s, e.now, 0)
    ensures QuietEvent(cfg, s, e)
  {
    hide AgreeAt, Settled, KeysOf;
    ExactSettles(cfg, s, e.now);
  }

  lemma StepAgrees(cfg: Config, maxEntries: nat, s: State, s': State, e: Event, drift: int)
    requires Agree(cfg, s, e.now, drift) && (cfg.window > 0 ==> cfg.window >= MILLISECOND) && Within(cfg, e.now, drift)
    requires QuietEvent(cfg, s, e)
    requires AnsweredStep(cfg, maxEntries, s, s', e.op, e.now, e.a, e.w)
    ensures Agree(cfg, s', e.now, drift)
  {
    hide Agree, Acquired, Holds, AgreeAt, AllSettled, Within, Releasable, HandedBack;
    match e.op
    case AcquireOp(account, ip) =>
      AcquireAgrees(cfg, maxEntries, s, s', account, ip, e.now, drift, e.a, e.w);
    case ReleaseOp(a, clearAccount) =>
      if a.allowed {
        ReleaseAgrees(cfg, s, a.counters, clearAccount, e.now, drift);
        HandedIsHandedBack(s, a, clearAccount, e.now);
      }
  }

  lemma HandedIsHandedBack(s: State, a: Attempt, clearAccount: bool, now: int)
    requires a.allowed && a.shared
    ensures Handed(s, a, clearAccount, true, now) == HandedBack(s, a.counters, clearAccount, now)
  {
  }

  /** For every event: it keeps the agreement exactly when it is quiet. */
  lemma StepAgreesExactly(cfg: Config, maxEntries: nat, s: State, s': State, e: Event, drift: int)
    requires Agree(cfg, s, e.now, drift) && (cfg.window > 0 ==> cfg.window >= MILLISECOND) && Within(cfg, e.now, drift)
    requires AnsweredStep(cfg, maxEntries, s, s', e.op, e.now, e.a, e.w)
    requires e.op.ReleaseOp? ==> DistinctKeys(e.op.a.counters)
    ensures Agree(cfg, s', e.now, drift) <==> QuietEvent(cfg, s, e)
  {
    hide Agree, Mirrored, FellBack, Holds, AgreeAt, AllSettled, Within, Releasable, HandedBack, Handed, DistinctKeys, KeysOf;
    if QuietEvent(cfg, s, e) {
      StepAgrees(cfg, maxEntries, s, s', e, drift);
    } else if Agree(cfg, s', e.now, drift) {
      match e.op
      case AcquireOp(account, ip) =>
        var cs := CountersFor(cfg, account, ip);
        NothingSettles(s, e.now);
        NothingHeld(cfg, s, cs, e.now, drift);
        ChargeAgreesExactly(cfg, maxEntries, s, s', cs, e.now, drift, e.a, e.w);
      case ReleaseOp(a, clearAccount) =>
        HandedIsHandedBack(s, a, clearAccount, e.now);
        ReleaseAgreesExactly(cfg, s, a.counters, clearAccount, e.now, drift);
    }
  }

  lemma NothingSettles(s: State, now: int)
    ensures AllSettled(s, [], now)
  {
  }

  /**
   * The first attempt that falls back: whatever Redis would refuse is refused; if the attempt is quiet
   * the verdict and the blocking counter are those of Redis, and the retry time differs by less than
   * the millisecond that Redis rounds to plus the drift.
   */
  lemma FallbackDecidesAlike(cfg: Config, maxEntries: nat, states: seq<State>, events: seq<Event>, drift: int,
                             account: string, ip: string, now: int, s': State, a: Attempt, w: Course)
    requires AnsweredRun(cfg, maxEntries, states, events) && cfg.window >= MILLISECOND
    requires forall i | 0 <= i < |events| :: events[i].now <= now && Within(cfg, events[i].now, drift)
    requires drift == 0 || Quiet(cfg, states, events)
    requires CountersFor(cfg, account, ip) != [] && !w.answered
    requires Acquired(cfg, maxEntries, states[|events|], s', account, ip, now, a, w)
    ensures var cs := CountersFor(cfg, account, ip);
            var r := AskedReply(cfg, states[|events|].db, cs, now);
            && (r.index > 0 ==> !a.allowed)
            && (drift == 0 || AllSettled(states[|events|], cs, now) ==>
                  && (a.allowed <==> r.index == 0)
                  && (!a.allowed ==>
                        && a.scope == Some(cs[r.index - 1].key.Scope())
                        && 0 <= a.retryAfter + now % MILLISECOND - r.ttl * MILLISECOND <= drift))
  {
    hide Agree, AnsweredStep, IncrAll, AgreeAt, LocallyDecided, AllSettled, Within;
    var s, cs := states[|events|], CountersFor(cfg, account, ip);
    Simulation(cfg, maxEntries, states, events, now, drift);
    VerdictOnLive(s.local, w.mid, cs, now);
    NoLaxer(cfg, s, cs, now, drift);
    if drift == 0 {
      ExactAllSettled(cfg, s, cs, now);
    }
    if AllSettled(s, cs, now) {
      SameVerdict(cfg, s, cs, now, drift);
      var blocked := FirstExhausted(w.mid, cs, now);
      if blocked >= 0 {
        SettledAt(s, cs, now, blocked);
        ExpiryAlike(cfg, s, w.mid, cs[blocked].key, now, drift);
      }
    }
  }

  lemma ExpiryAlike(cfg: Config, s: State, mid: Table, k: Key, now: int, drift: int)
    requires Agree(cfg, s, now, drift) && SameLive(s.local, mid, now) && IsLive(mid, k, now) && Settled(s, k, now)
    ensures PTtl(s.db, k, Millis(now)) > 0
    ensures 0 <= mid[k].expires - now + now % MILLISECOND - PTtl(s.db, k, Millis(now)) * MILLISECOND <= drift
  {
    LiveAt(s.local, mid, k, now);
    assert AgreeAt(cfg, s, k, now, drift);
  }

  lemma {:induction false} VerdictOnLive(t: Table, mid: Table, cs: seq<LoginCounter>, now: int)
    requires SameLive(t, mid, now)
    ensures FirstExhausted(t, cs, now) == FirstExhausted(mid, cs, now)
    decreases |cs|
  {
    if cs != [] {
      LiveAt(t, mid, cs[0].key, now);
      VerdictOnLive(t, mid, cs[1..], now);
    }
  }

  /** After the first attempt the two sides stay indistinguishable exactly for whole milliseconds. */
  lemma FirstAttemptAgrees(cfg: Config, maxEntries: nat, s': State, account: string, ip: string, now: int, a: Attempt, w: Course)
    requires CountersFor(cfg, account, ip) != [] && w.answered && w.dropped == 0
    requires Acquired(cfg, maxEntries, State(map[], map[]), s', account, ip, now, a, w)
    ensures Agree(cfg, s', now, 0) <==> WholeMilliseconds(cfg.window) && WholeMilliseconds(now)
    ensures (forall k, later | now <= later :: Settled(s', k, later)) <==> WholeMilliseconds(cfg.window) && WholeMilliseconds(now)
  {
    hide Agree, Settled, Acquired, AllSettled, AgreeAt;
    var s, cs := State(map[], map[]), CountersFor(cfg, account, ip);
    NothingAgrees(cfg, now, 0);
    ExactAllSettled(cfg, s, cs, now);
    if WholeMilliseconds(cfg.window) && WholeMilliseconds(now) {
      AcquireAgrees(cfg, maxEntries, s, s', account, ip, now, 0, a, w);
      ExactSettles(cfg, s', now);
    } else {
      FirstAttemptDiffers(cfg, maxEntries, s', account, ip, now, a, w);
      if Agree(cfg, s', now, 0) {
        ExactSettles(cfg, s', now);
      }
    }
  }

  /** The counter is unsettled in the moment at which it ends in Redis, or at once if Redis drops it. */
  lemma FirstAttemptDiffers(cfg: Config, maxEntries: nat, s': State, account: string, ip: string, now: int, a: Attempt, w: Course)
    requires CountersFor(cfg, account, ip) != [] && w.answered && w.dropped == 0
    requires Acquired(cfg, maxEntries, State(map[], map[]), s', account, ip, now, a, w)
    requires !(WholeMilliseconds(cfg.window) && WholeMilliseconds(now))
    ensures exists k, later :: now <= later && !Settled(s', k, later)
  {
    hide IncrAll, Charged, RoomMade, SameLive, Purged, KeysOf, Holds, MarkedExhausted, Replied;
    var cs := CountersFor(cfg, account, ip);
    var k, window, at := cs[0].key, Millis(cfg.window), Millis(now);
    NothingFull(cs, at);
    var start := Purged(w.mid, KeysOf(cs), now);
    MirrorAt(map[], w.mid, w.room, cs, cfg.window, now, maxEntries, |KeysOf(cs) - start.Keys|, k);
    IncrAt(map[], cs, window, at, 0);
    if window > 0 {
      var end := (at + window) * MILLISECOND;
      assert !Settled(s', k, end) && now <= end;
    } else {
      assert !Settled(s', k, now);
    }
  }

  /** After a refusal they stay so exactly when it came at a whole millisecond, whatever the window. */
  lemma RefusalAgrees(cfg: Config, maxEntries: nat, s: State, s': State, account: string, ip: string, now: int, a: Attempt, w: Course)
    requires CountersFor(cfg, account, ip) != [] && w.answered && !a.allowed
    requires Agree(cfg, s, now, 0) && Acquired(cfg, maxEntries, s, s', account, ip, now, a, w)
    ensures Agree(cfg, s', now, 0) <==> WholeMilliseconds(now)
    ensures (forall k, later | now <= later :: Settled(s', k, later)) <==> WholeMilliseconds(now)
  {
    hide Mirrored, Agree, AgreeAt, Settled;
    var cs := CountersFor(cfg, account, ip);
    if WholeMilliseconds(now) {
      RefusedAgrees(cfg, maxEntries, s, s', cs, now, 0, a, w);
      ExactSettles(cfg, s', now);
    } else {
      RefusedMark(cfg, maxEntries, s, s', cs, now, 0, a, w);
      var k := cs[AskedReply(cfg, s.db, cs, now).index - 1].key;
      MarkOutlives(s', k, now);
      if Agree(cfg, s', now, 0) {
        ExactSettles(cfg, s', now);
      }
    }
  }

  // The run behind RefusalAgrees: a window of one second, one attempt allowed at 0, the next refused
  // half a millisecond later.

  const ONE_SECOND := Config(1, 0, 0, 1_000 * MILLISECOND)

  function TwoAttempts(account: string, ip: string): (r: (seq<State>, seq<Event>)) {
    var k := UserIPKey(account, ip);
    var cs := [LoginCounter(k, 1)];
    var db := map[k := RedisEntry(1, Some(1_000))];
    var s1 := State(map[k := Counter(1, 0, 1, 1_000_000_000)], db);
    var s2 := State(map[k := Counter(1, 0, 1, 1_000_500_000)], db);
    ([State(map[], map[]), s1, s2],
     [Event(AcquireOp(account, ip), 0, Attempt(true, None, 0, cs, true), Course(true, 0, map[], map[])),
      Event(AcquireOp(account, ip), 500_000, Attempt(false, Some(ScopeUserIP), 1_000_000_000, cs, false), Course(true, 0, s1.local, s1.local))])
  }

  /** The window is whole milliseconds; yet a fallback after 1000.2 ms refuses what Redis would allow. */
  lemma RefusalShiftsTheEnd(account: string, ip: string, maxEntries: nat)
    requires maxEntries > 0
    ensures var (states, events) := TwoAttempts(account, ip);
            var cs := CountersFor(ONE_SECOND, account, ip);
            && WholeMilliseconds(ONE_SECOND.window) && AnsweredRun(ONE_SECOND, maxEntries, states, events)
            && FirstExhausted(states[2].local, cs, 1_000_200_000) == 0
            && AskedReply(ONE_SECOND, states[2].db, cs, 1_000_200_000).index == 0
  {
    hide Acquired;
    FirstOfTwo(account, ip, maxEntries);
    SecondOfTwo(account, ip, maxEntries);
    assert CountersFor(ONE_SECOND, account, ip) == [LoginCounter(UserIPKey(account, ip), 1)];
  }

  lemma FirstOfTwo(account: string, ip: string, maxEntries: nat)
    requires maxEntries > 0
    ensures var (states, events) := TwoAttempts(account, ip);
            var e := events[0];
            Acquired(ONE_SECOND, maxEntries, states[0], states[1], account, ip, e.now, e.a, e.w)
  {
    hide IncrAll, Charged, RoomMade, FirstFull;
    var (states, events) := TwoAttempts(account, ip);
    var c := LoginCounter(UserIPKey(account, ip), 1);
    assert CountersFor(ONE_SECOND, account, ip) == [c];
    OneKey(c);
    NothingFull([c], 0);
    EmptyRoom(c.key, maxEntries);
    OneCharge(c);
    OneIncr(c);
  }

  lemma OneKey(c: LoginCounter)
    ensures KeysOf([c]) == {c.key}
  {
  }

  lemma EmptyRoom(k: Key, maxEntries: nat)
    requires maxEntries > 0
    ensures Purged(map[], {k}, 0) == map[]
    ensures RoomMade(map[], map[], |{k} - Purged(map[], {k}, 0).Keys|, {k}, maxEntries, 0, 0)
  {
    assert {k} - Purged(map[], {k}, 0).Keys == {k};
  }

  lemma {:induction false} OneCharge(c: LoginCounter)
    ensures Charged(map[], [c], 1_000 * MILLISECOND, 0, false) == map[c.key := Counter(1, 0, c.limit, 1_000_000_000)]
  {
    assert [c][1..] == [];
  }

  lemma {:induction false} OneIncr(c: LoginCounter)
    ensures IncrAll(map[], [c], 1_000, 0) == map[c.key := RedisEntry(1, Some(1_000))]
  {
    assert [c][1..] == [];
  }

  lemma SecondOfTwo(account: string, ip: string, maxEntries: nat)
    requires maxEntries > 0
    ensures var (states, events) := TwoAttempts(account, ip);
            var e := events[1];
            Acquired(ONE_SECOND, maxEntries, states[1], states[2], account, ip, e.now, e.a, e.w)
  {
    var (states, events) := TwoAttempts(account, ip);
    var k := UserIPKey(account, ip);
    var cs := [LoginCounter(k, 1)];
    assert CountersFor(ONE_SECOND, account, ip) == cs;
    assert Purged(states[1].local, {k}, 500_000) == states[1].local;
    assert FirstFull(states[1].db, cs, 0) == 0;
  }

  lemma LimitAt(cfg: Config, cs: seq<LoginCounter>, i: nat)
    requires Limits(cfg, cs) && i < |cs|
    ensures cs[i].limit == Limit(cfg, cs[i].key) > 0
  {
  }

  lemma MarkOutlives(s: State, k: Key, now: int)
    requires Present(s.db, k, Millis(now)) && s.db[k].expires.Some? && k in s.local
    requires s.local[k].expires > s.db[k].expires.value * MILLISECOND
    ensures exists later :: now <= later && !Settled(s, k, later)
  {
    var end := s.db[k].expires.value * MILLISECOND;
    assert !Settled(s, k, end) && now <= end;
  }

  lemma NothingFull(cs: seq<LoginCounter>, now: int)
    requires forall i | 0 <= i < |cs| :: cs[i].limit > 0
    ensures FirstFull(map[], cs, now) == -1
  {
  }

  // ---------------------------------------------------------------------------------------------
  // Runs of any kind
  // ---------------------------------------------------------------------------------------------

  predicate Shaped(cfg: Config, k: Key, e: Counter) {
    e.limit == Limit(cfg, k) && e.count >= 1 && e.unshared >= 0
  }

  ghost predicate WithinRoom(cfg: Config, maxEntries: nat, t: Table) {
    |t| <= maxEntries && forall k | k in t :: Shaped(cfg, k, t[k])
  }

  /** Any call: an attempt whoever decided it, or a release that reached Redis or did not. */
  ghost predicate AnyStep(cfg: Config, maxEntries: nat, s: State, s': State, e: Event) {
    match e.op
    case AcquireOp(account, ip) => Acquired(cfg, maxEntries, s, s', account, ip, e.now, e.a, e.w)
    case ReleaseOp(a, clearAccount) => s' == Handed(s, a, clearAccount, true, e.now) || s' == Handed(s, a, clearAccount, false, e.now)
  }

  /** A run in which Redis may come and go, and every map iteration may go in any order. */
  ghost predicate AnyRun(cfg: Config, maxEntries: nat, states: seq<State>, events: seq<Event>) {
    && |states| == |events| + 1 && states[0] == State(map[], map[])
    && (forall i | 0 <= i < |events| :: AnyStep(cfg, maxEntries, states[i], states[i + 1], events[i]))
  }

  /** The table never outgrows its capacity, and its entries are never empty. */
  lemma {:induction false} TableStaysBounded(cfg: Config, maxEntries: nat, states: seq<State>, events: seq<Event>)
    requires AnyRun(cfg, maxEntries, states, events)
    ensures WithinRoom(cfg, maxEntries, states[|events|].local)
    decreases |events|
  {
    hide AnyStep, Shaped;
    if events != [] {
      var n := |events| - 1;
      TableStaysBounded(cfg, maxEntries, states[..n + 1], events[..n]);
      StepKeepsRoom(cfg, maxEntries, states[n], states[n + 1], events[n]);
    }
  }

  lemma StepKeepsRoom(cfg: Config, maxEntries: nat, s: State, s': State, e: Event)
    requires WithinRoom(cfg, maxEntries, s.local) && AnyStep(cfg, maxEntries, s, s', e)
    ensures WithinRoom(cfg, maxEntries, s'.local)
  {
    hide WithinRoom, FellBack, Mirrored;
    match e.op
    case AcquireOp(account, ip) =>
      var cs := CountersFor(cfg, account, ip);
      if cs != [] && e.w.answered {
        MirrorKeepsRoom(cfg, maxEntries, s, s', cs, e.now, e.a, e.w);
      } else if cs != [] {
        FallbackKeepsRoom(cfg, maxEntries, s, s', cs, e.now, e.a, e.w);
      }
    case ReleaseOp(a, clearAccount) =>
      ReleaseKeepsRoom(cfg, maxEntries, s.local, a.counters, a.shared, clearAccount, e.now);
  }

  lemma {:induction false} ReleaseKeepsRoom(cfg: Config, maxEntries: nat, t: Table, cs: seq<LoginCounter>, shared: bool, clearAccount: bool, now: int)
    requires WithinRoom(cfg, maxEntries, t)
    ensures WithinRoom(cfg, maxEntries, Released(t, cs, shared, clearAccount, now))
    decreases |cs|
  {
    if cs != [] {
      var t1 := ReleasedOne(t, cs[0], shared, clearAccount, now);
      SubsetSize(t1.Keys, t.Keys);
      assert forall k | k in t1 :: Shaped(cfg, k, t[k]);
      ReleaseKeepsRoom(cfg, maxEntries, t1, cs[1..], shared, clearAccount, now);
    }
  }

  lemma PartKeepsRoom(cfg: Config, maxEntries: nat, t: Table, t': Table)
    requires WithinRoom(cfg, maxEntries, t) && t'.Keys <= t.Keys && forall k | k in t' :: t'[k] == t[k]
    ensures WithinRoom(cfg, maxEntries, t')
  {
    SubsetSize(t'.Keys, t.Keys);
    assert forall k | k in t' :: Shaped(cfg, k, t[k]);
  }

  lemma FallbackKeepsRoom(cfg: Config, maxEntries: nat, s: State, s': State, cs: seq<LoginCounter>, now: int, a: Attempt, w: Course)
    requires cs != [] && cfg.window > 0 && Limits(cfg, cs) && DistinctKeys(cs)
    requires WithinRoom(cfg, maxEntries, s.local) && FellBack(cfg, maxEntries, s, s', cs, now, a, w)
    ensures WithinRoom(cfg, maxEntries, s'.local)
  {
    hide WithinRoom, RoomMade, Charged, Live, KeysOf, DistinctKeys, Limits, AskedReply, Purged;
    PartKeepsRoom(cfg, maxEntries, s.local, w.mid);
    if a.allowed {
      ChargeKeepsRoom(cfg, maxEntries, w.mid, w.room, cs, now, true, w.dropped);
    } else {
      PartKeepsRoom(cfg, maxEntries, w.mid, s'.local);
    }
  }

  lemma MirrorKeepsRoom(cfg: Config, maxEntries: nat, s: State, s': State, cs: seq<LoginCounter>, now: int, a: Attempt, w: Course)
    requires cs != [] && cfg.window > 0 && Limits(cfg, cs) && DistinctKeys(cs)
    requires WithinRoom(cfg, maxEntries, s.local) && Mirrored(cfg, maxEntries, s, s', cs, now, a, w)
    ensures WithinRoom(cfg, maxEntries, s'.local)
  {
    hide WithinRoom, RoomMade, Charged, Live, KeysOf, DistinctKeys, Limits, AskedReply, Purged, MarkedExhausted, Holds;
    PartKeepsRoom(cfg, maxEntries, s.local, w.mid);
    if a.allowed {
      ChargeKeepsRoom(cfg, maxEntries, w.mid, w.room, cs, now, false, w.dropped);
    } else {
      var r := AskedReply(cfg, s.db, cs, now);
      LimitAt(cfg, cs, r.index - 1);
      MarkKeepsRoom(cfg, maxEntries, w.mid, s'.local, cs[r.index - 1], r.ttl * MILLISECOND, now, w.dropped, w.room);
    }
  }

  lemma MarkKeepsRoom(cfg: Config, maxEntries: nat, t: Table, t': Table, c: LoginCounter, remaining: int, now: int, dropped: nat, room: Table)
    requires WithinRoom(cfg, maxEntries, t) && c.limit == Limit(cfg, c.key) > 0
    requires MarkedExhausted(t, t', c, remaining, now, maxEntries, dropped, room)
    ensures WithinRoom(cfg, maxEntries, t')
  {
    hide Live, Exhausted, Shaped;
    ExhaustedBound(t, t', c, remaining, now, maxEntries, dropped, room);
    forall k | k in t' ensures Shaped(cfg, k, t'[k]) {
      MarkedAt(t, t', c, remaining, now, maxEntries, dropped, room, k);
      MarkShaped(cfg, c, now + remaining);
    }
  }

  lemma MarkShaped(cfg: Config, c: LoginCounter, expires: int)
    requires c.limit == Limit(cfg, c.key) > 0
    ensures Shaped(cfg, c.key, Counter(c.limit, 0, c.limit, expires))
  {
  }

  /** exhaust writes one entry and otherwise only removes. */
  lemma MarkedAt(t: Table, t': Table, c: LoginCounter, remaining: int, now: int, maxEntries: nat, dropped: nat, room: Table, k: Key)
    requires MarkedExhausted(t, t', c, remaining, now, maxEntries, dropped, room) && k in t'
    ensures (k in t && t'[k] == t[k]) || (k == c.key && t'[k] == Counter(c.limit, 0, c.limit, now + remaining))
  {
    hide Live, Exhausted;
  }

  lemma ChargeKeepsRoom(cfg: Config, maxEntries: nat, t: Table, room: Table, cs: seq<LoginCounter>, now: int, unshared: bool, dropped: nat)
    requires cfg.window > 0 && Limits(cfg, cs) && DistinctKeys(cs) && WithinRoom(cfg, maxEntries, t)
    requires var start := Purged(t, KeysOf(cs), now);
             RoomMade(start, room, |KeysOf(cs) - start.Keys|, KeysOf(cs), maxEntries, now, dropped)
    ensures WithinRoom(cfg, maxEntries, Charged(room, cs, cfg.window, now, unshared))
  {
    hide Live, Exhausted, Shaped, Charged, KeysOf, DistinctKeys, Limits;
    var start := Purged(t, KeysOf(cs), now);
    var t' := Charged(room, cs, cfg.window, now, unshared);
    ChargedBound(start, room, cs, cfg.window, now, unshared, maxEntries, dropped);
    assert forall k | k in room :: k in t && room[k] == t[k];
    ChargeShapes(cfg, room, cs, now, unshared);
  }

  lemma ChargeShapes(cfg: Config, room: Table, cs: seq<LoginCounter>, now: int, unshared: bool)
    requires Limits(cfg, cs) && DistinctKeys(cs) && forall k | k in room :: Shaped(cfg, k, room[k])
    ensures forall k | k in Charged(room, cs, cfg.window, now, unshared) :: Shaped(cfg, k, Charged(room, cs, cfg.window, now, unshared)[k])
  {
    hide Charged, DistinctKeys;
    var t' := Charged(room, cs, cfg.window, now, unshared);
    forall k | k in t' ensures Shaped(cfg, k, t'[k]) {
      if HasKey(cs, k) {
        var i :| 0 <= i < |cs| && cs[i].key == k;
        ChargedOne(room, cs, cfg.window, now, unshared, i);
        assert k in room ==> Shaped(cfg, k, room[k]);
      } else {
        ChargedOther(room, cs, cfg.window, now, unshared, k);
      }
    }
  }

  // ---------------------------------------------------------------------------------------------
  // Runs without Redis
  // ---------------------------------------------------------------------------------------------

  predicate EntryOk(cfg: Config, k: Key, e: Counter, last: int) {
    e.limit == Limit(cfg, k) && 1 <= e.count <= e.limit && e.unshared == e.count && e.expires <= last + cfg.window
  }

  /** What holds of the table after every run without Redis; last is the time of the last call. */
  ghost predicate Bounded(cfg: Config, maxEntries: nat, t: Table, last: int) {
    |t| <= maxEntries && forall k | k in t :: EntryOk(cfg, k, t[k], last)
  }

  ghost predicate LocalStep(cfg: Config, maxEntries: nat, s: State, s': State, e: Event) {
    match e.op
    case AcquireOp(account, ip) => !e.w.answered && Acquired(cfg, maxEntries, s, s', account, ip, e.now, e.a, e.w)
    case ReleaseOp(a, clearAccount) => !a.shared && s' == Handed(s, a, clearAccount, false, e.now)
  }

  /** A run in which every map iteration may have gone in any order. */
  ghost predicate LocalRun(cfg: Config, maxEntries: nat, states: seq<State>, events: seq<Event>) {
    && |states| == |events| + 1 && states[0] == State(map[], map[])
    && (forall i | 0 <= i < |events| :: LocalStep(cfg, maxEntries, states[i], states[i + 1], events[i]))
    && (forall i, j | 0 <= i <= j < |events| :: events[i].now <= events[j].now)
  }

  /** Without Redis no counter ever exceeds its limit. */
  lemma {:induction false} CountsStayBounded(cfg: Config, maxEntries: nat, states: seq<State>, events: seq<Event>, last: int)
    requires LocalRun(cfg, maxEntries, states, events)
    requires forall i | 0 <= i < |events| :: events[i].now <= last
    ensures Bounded(cfg, maxEntries, states[|events|].local, last)
    decreases |events|
  {
    hide LocalStep, EntryOk;
    if events != [] {
      var n := |events| - 1;
      CountsStayBounded(cfg, maxEntries, states[..n + 1], events[..n], events[n].now);
      StepStaysBounded(cfg, maxEntries, states[n], states[n + 1], events[n]);
      BoundedLater(cfg, maxEntries, states[n + 1].local, events[n].now, last);
    }
  }

  lemma BoundedLater(cfg: Config, maxEntries: nat, t: Table, last: int, later: int)
    requires Bounded(cfg, maxEntries, t, last) && last <= later
    ensures Bounded(cfg, maxEntries, t, later)
  {
    forall k | k in t ensures EntryOk(cfg, k, t[k], later) {
      assert EntryOk(cfg, k, t[k], last);
    }
  }

  lemma StepStaysBounded(cfg: Config, maxEntries: nat, s: State, s': State, e: Event)
    requires Bounded(cfg, maxEntries, s.local, e.now) && LocalStep(cfg, maxEntries, s, s', e)
    ensures Bounded(cfg, maxEntries, s'.local, e.now)
  {
    hide Bounded, FellBack, EntryOk;
    match e.op
    case AcquireOp(account, ip) =>
      var cs := CountersFor(cfg, account, ip);
      if cs != [] {
        AcquireStaysBounded(cfg, maxEntries, s, s', cs, e.now, e.a, e.w);
      }
    case ReleaseOp(a, clearAccount) =>
      ReleaseStaysBounded(cfg, maxEntries, s.local, a.counters, clearAccount, e.now);
  }

  lemma {:induction false} ReleaseStaysBounded(cfg: Config, maxEntries: nat, t: Table, cs: seq<LoginCounter>, clearAccount: bool, now: int)
    requires Bounded(cfg, maxEntries, t, now)
    ensures Bounded(cfg, maxEntries, Released(t, cs, false, clearAccount, now), now)
    decreases |cs|
  {
    if cs != [] {
      var t1 := ReleasedOne(t, cs[0], false, clearAccount, now);
      SubsetSize(t1.Keys, t.Keys);
      assert forall k | k in t1 :: EntryOk(cfg, k, t[k], now);
      ReleaseStaysBounded(cfg, maxEntries, t1, cs[1..], clearAccount, now);
    }
  }

  lemma SubtableBounded(cfg: Config, maxEntries: nat, t: Table, t': Table, now: int)
    requires Bounded(cfg, maxEntries, t, now) && t'.Keys <= t.Keys && forall k | k in t' :: t'[k] == t[k]
    ensures Bounded(cfg, maxEntries, t', now)
  {
    SubsetSize(t'.Keys, t.Keys);
    assert forall k | k in t' :: EntryOk(cfg, k, t[k], now);
  }

  lemma AcquireStaysBounded(cfg: Config, maxEntries: nat, s: State, s': State, cs: seq<LoginCounter>, now: int, a: Attempt, w: Course)
    requires cs != [] && cfg.window > 0 && Limits(cfg, cs) && DistinctKeys(cs)
    requires Bounded(cfg, maxEntries, s.local, now) && FellBack(cfg, maxEntries, s, s', cs, now, a, w)
    ensures Bounded(cfg, maxEntries, s'.local, now)
  {
    hide Bounded, RoomMade, Charged, Live, EntryOk, KeysOf, DistinctKeys, Limits, AcquireReply, Purged;
    SubtableBounded(cfg, maxEntries, s.local, w.mid, now);
    if a.allowed {
      ChargeStaysBounded(cfg, maxEntries, w.mid, w.room, cs, now, w.dropped);
    } else {
      SubtableBounded(cfg, maxEntries, w.mid, s'.local, now);
    }
  }

  lemma ChargeStaysBounded(cfg: Config, maxEntries: nat, t: Table, room: Table, cs: seq<LoginCounter>, now: int, dropped: nat)
    requires cfg.window > 0 && Limits(cfg, cs) && DistinctKeys(cs)
    requires Bounded(cfg, maxEntries, t, now) && FirstExhausted(t, cs, now) < 0
    requires var start := Purged(t, KeysOf(cs), now);
             RoomMade(start, room, |KeysOf(cs) - start.Keys|, KeysOf(cs), maxEntries, now, dropped)
    ensures Bounded(cfg, maxEntries, Charged(room, cs, cfg.window, now, true), now)
  {
    var start := Purged(t, KeysOf(cs), now);
    var t' := Charged(room, cs, cfg.window, now, true);
    ChargedBound(start, room, cs, cfg.window, now, true, maxEntries, dropped);
    ChargedKeys(room, cs, cfg.window, now, true);
    forall k | k in t' ensures EntryOk(cfg, k, t'[k], now) {
      ChargedEntryOk(cfg, maxEntries, t, room, cs, now, dropped, k);
    }
  }

  lemma ChargedEntryOk(cfg: Config, maxEntries: nat, t: Table, room: Table, cs: seq<LoginCounter>, now: int, dropped: nat, k: Key)
    requires cfg.window > 0 && Limits(cfg, cs) && DistinctKeys(cs)
    requires Bounded(cfg, maxEntries, t, now) && FirstExhausted(t, cs, now) < 0
    requires var start := Purged(t, KeysOf(cs), now);
             RoomMade(start, room, |KeysOf(cs) - start.Keys|, KeysOf(cs), maxEntries, now, dropped)
    requires k in Charged(room, cs, cfg.window, now, true)
    ensures EntryOk(cfg, k, Charged(room, cs, cfg.window, now, true)[k], now)
  {
    hide Charged, Live, DistinctKeys, KeysOf;
    KeysOfHas(cs, k);
    PurgedAt(t, KeysOf(cs), k, now);
    if HasKey(cs, k) {
      var i :| 0 <= i < |cs| && cs[i].key == k;
      ChargedOne(room, cs, cfg.window, now, true, i);
      assert k in room ==> EntryOk(cfg, k, t[k], now) && t[k].count < cs[i].limit;
    } else {
      ChargedOther(room, cs, cfg.window, now, true, k);
      assert EntryOk(cfg, k, t[k], now);
    }
  }

  /** An attempt the table decides charges every counter once or changes no live counter. */
  lemma AllOrNothing(cfg: Config, maxEntries: nat, s: State, s': State, cs: seq<LoginCounter>, now: int, a: Attempt, w: Course)
    requires cs != [] && cfg.window > 0 && DistinctKeys(cs) && FellBack(cfg, maxEntries, s, s', cs, now, a, w)
    ensures a.allowed ==> forall i | 0 <= i < |cs| ::
              && IsLive(s'.local, cs[i].key, now)
              && s'.local[cs[i].key].count == 1 + if IsLive(s.local, cs[i].key, now) then s.local[cs[i].key].count else 0
    ensures !a.allowed ==> Live(s'.local, now) == Live(s.local, now)
    ensures a.allowed <==> forall i | 0 <= i < |cs| :: IsLive(s.local, cs[i].key, now) ==> s.local[cs[i].key].count < cs[i].limit
  {
    hide Charged, KeysOf, AcquireReply, Purged, DistinctKeys;
    VerdictOnLive(s.local, w.mid, cs, now);
    if a.allowed {
      forall i | 0 <= i < |cs|
        ensures IsLive(s'.local, cs[i].key, now)
        ensures s'.local[cs[i].key].count == 1 + if IsLive(s.local, cs[i].key, now) then s.local[cs[i].key].count else 0
      {
        var k := cs[i].key;
        assert HasKey(cs, k);
        KeysOfHas(cs, k);
        LiveAt(s.local, w.mid, k, now);
        PurgedAt(w.mid, KeysOf(cs), k, now);
        ChargedOne(w.room, cs, cfg.window, now, true, i);
      }
    }
  }

  /**
   * An exhausted counter is evicted only when every counter left is exhausted or one that the attempt
   * was just written to: all of its counters when it was allowed, the one Redis named when it was not.
   */
  lemma LockoutsGoLast(cfg: Config, maxEntries: nat, s: State, s': State, account: string, ip: string, now: int, a: Attempt, w: Course, locked: Key)
    requires Acquired(cfg, maxEntries, s, s', account, ip, now, a, w)
    requires IsLive(s.local, locked, now) && Exhausted(s.local, locked) && locked !in s'.local
    ensures locked !in KeysOf(a.counters) && forall k | k in s'.local :: k in KeysOf(a.counters) || Exhausted(s'.local, k)
    ensures a.counters != []
  {
    hide Mirrored, FellBack, KeysOf, Exhausted;
    var cs := CountersFor(cfg, account, ip);
    if cs != [] && w.answered {
      MirrorLockouts(cfg, maxEntries, s, s', cs, now, a, w, locked);
    } else if cs != [] {
      FallbackLockouts(cfg, maxEntries, s, s', cs, now, a, w, locked);
    }
  }

  lemma MirrorLockouts(cfg: Config, maxEntries: nat, s: State, s': State, cs: seq<LoginCounter>, now: int, a: Attempt, w: Course, locked: Key)
    requires cs != [] && cfg.window > 0 && Mirrored(cfg, maxEntries, s, s', cs, now, a, w)
    requires IsLive(s.local, locked, now) && Exhausted(s.local, locked) && locked !in s'.local
    ensures a.counters != [] && locked !in KeysOf(a.counters) && forall k | k in s'.local :: k in KeysOf(a.counters) || Exhausted(s'.local, k)
  {
    hide Charged, KeysOf, AskedReply, Purged, MarkedExhausted, RoomMade, SameLive, Exhausted, IsLive, Holds;
    LiveAt(s.local, w.mid, locked, now);
    StillExhausted(s.local, w.mid, locked, now);
    if a.allowed {
      ChargedLast(w.mid, w.room, s'.local, cs, cfg.window, now, false, maxEntries, w.dropped, locked);
    } else {
      var r := AskedReply(cfg, s.db, cs, now);
      MarkedLast(w.mid, s'.local, cs[r.index - 1], r.ttl * MILLISECOND, now, maxEntries, w.dropped, w.room, locked);
    }
  }

  lemma FallbackLockouts(cfg: Config, maxEntries: nat, s: State, s': State, cs: seq<LoginCounter>, now: int, a: Attempt, w: Course, locked: Key)
    requires cs != [] && cfg.window > 0 && FellBack(cfg, maxEntries, s, s', cs, now, a, w)
    requires IsLive(s.local, locked, now) && Exhausted(s.local, locked) && locked !in s'.local
    ensures a.counters != [] && locked !in KeysOf(a.counters) && forall k | k in s'.local :: k in KeysOf(a.counters) || Exhausted(s'.local, k)
  {
    hide Charged, KeysOf, AskedReply, Purged, RoomMade, SameLive, Exhausted, IsLive;
    LiveAt(s.local, w.mid, locked, now);
    StillExhausted(s.local, w.mid, locked, now);
    if a.allowed {
      ChargedLast(w.mid, w.room, s'.local, cs, cfg.window, now, true, maxEntries, w.dropped, locked);
    } else {
      var blocked := FirstExhausted(w.mid, cs, now);
      RefusedLoses(w.mid, s'.local, cs, cfg.window, now, maxEntries, blocked, a.retryAfter, w.dropped, w.room, locked);
    }
  }

  lemma StillExhausted(t: Table, mid: Table, k: Key, now: int)
    requires IsLive(t, k, now) && Exhausted(t, k) && IsLive(mid, k, now) && mid[k] == t[k]
    ensures Exhausted(mid, k)
  {
  }

  lemma ChargedLast(mid: Table, room: Table, t': Table, cs: seq<LoginCounter>, window: int, now: int, unshared: bool, maxEntries: nat,
                    dropped: nat, locked: Key)
    requires var start := Purged(mid, KeysOf(cs), now);
             RoomMade(start, room, |KeysOf(cs) - start.Keys|, KeysOf(cs), maxEntries, now, dropped)
    requires t' == Charged(room, cs, window, now, unshared)
    requires IsLive(mid, locked, now) && Exhausted(mid, locked) && locked !in t'
    ensures locked !in KeysOf(cs) && forall k | k in t' :: k in KeysOf(cs) || Exhausted(t', k)
  {
    hide Charged, KeysOf, Live;
    var start := Purged(mid, KeysOf(cs), now);
    PurgedAt(mid, KeysOf(cs), locked, now);
    ChargedKeys(room, cs, window, now, unshared);
    assert EvictedExhausted(start, room, locked, now);
    forall k | k in t' ensures k in KeysOf(cs) || Exhausted(t', k) {
      KeysOfHas(cs, k);
      if !HasKey(cs, k) {
        ChargedOther(room, cs, window, now, unshared, k);
      }
    }
  }

  lemma MarkedLast(mid: Table, t': Table, c: LoginCounter, remaining: int, now: int, maxEntries: nat, dropped: nat, room: Table, locked: Key)
    requires MarkedExhausted(mid, t', c, remaining, now, maxEntries, dropped, room)
    requires IsLive(mid, locked, now) && Exhausted(mid, locked) && locked !in t'
    ensures locked !in KeysOf([c]) && forall k | k in t' :: k in KeysOf([c]) || Exhausted(t', k)
  {
    hide Live;
    var start := Purged(mid, {c.key}, now);
    PurgedAt(mid, {c.key}, locked, now);
    assert KeysOf([c]) == {c.key};
    assert EvictedExhausted(start, room, locked, now);
  }

  lemma RefusedLoses(mid: Table, t': Table, cs: seq<LoginCounter>, window: int, now: int, maxEntries: nat, blocked: int, retryAfter: int,
                     dropped: nat, room: Table, k: Key)
    requires blocked >= 0 && LocallyDecided(mid, t', cs, window, now, maxEntries, blocked, retryAfter, dropped, room)
    requires IsLive(mid, k, now)
    ensures k in t'
  {
    hide RoomMade, Charged;
    LiveAt(mid, t', k, now);
  }

  // ---------------------------------------------------------------------------------------------
  // What the limits are for
  // ---------------------------------------------------------------------------------------------

  /** The number of allowed attempts that were charged to k. */
  ghost function Charges(cfg: Config, events: seq<Event>, k: Key): nat
    decreases |events|
  {
    if events == [] then 0
    else
      var e := events[|events| - 1];
      Charges(cfg, events[..|events| - 1], k) +
      if e.op.AcquireOp? && e.a.allowed && HasKey(CountersFor(cfg, e.op.account, e.op.ip), k) then 1 else 0
  }

  /** Within one window, without a success and without an eviction, k admits at most its limit. */
  lemma {:induction false} AtMostTheLimit(cfg: Config, maxEntries: nat, states: seq<State>, events: seq<Event>, k: Key)
    requires LocalRun(cfg, maxEntries, states, events)
    requires forall i | 0 <= i < |events| :: events[i].op.AcquireOp? && events[i].w.dropped == 0
    requires forall i | 0 <= i < |events| :: events[i].now < events[0].now + cfg.window
    ensures var n := Charges(cfg, events, k);
            n > 0 ==> n <= Limit(cfg, k) && k in states[|events|].local && states[|events|].local[k].count == n
                      && events[0].now + cfg.window <= states[|events|].local[k].expires
    ensures Charges(cfg, events, k) == 0 ==> k !in states[|events|].local
    decreases |events|
  {
    hide LocalStep;
    if events != [] {
      var n := |events| - 1;
      var e := events[n];
      AtMostTheLimit(cfg, maxEntries, states[..n + 1], events[..n], k);
      assert LocalStep(cfg, maxEntries, states[n], states[n + 1], e);
      ChargeCounts(cfg, maxEntries, states[n], states[n + 1], e, events[0].now, k);
    }
  }

  lemma ChargeCounts(cfg: Config, maxEntries: nat, s: State, s': State, e: Event, first: int, k: Key)
    requires LocalStep(cfg, maxEntries, s, s', e) && e.op.AcquireOp? && e.w.dropped == 0 && first <= e.now < first + cfg.window
    requires k in s.local ==> 1 <= s.local[k].count && first + cfg.window <= s.local[k].expires
    ensures var cs := CountersFor(cfg, e.op.account, e.op.ip);
            var n := if k in s.local then s.local[k].count else 0;
            if e.a.allowed && HasKey(cs, k) then
              k in s'.local && s'.local[k].count == n + 1 <= Limit(cfg, k) && first + cfg.window <= s'.local[k].expires
            else (k in s.local <==> k in s'.local) && (k in s.local ==> s'.local[k] == s.local[k])
  {
    hide Charged, KeysOf, AcquireReply, Purged, DistinctKeys, RoomMade, SameLive, Limits;
    var cs, w, now := CountersFor(cfg, e.op.account, e.op.ip), e.w, e.now;
    if cs != [] {
      LiveAt(s.local, w.mid, k, now);
      MidKeys(s.local, w.mid, k, now);
      VerdictOnLive(s.local, w.mid, cs, now);
      KeysOfHas(cs, k);
      if e.a.allowed {
        var start := Purged(w.mid, KeysOf(cs), now);
        PurgedAt(w.mid, KeysOf(cs), k, now);
        PurgedKeys(w.mid, KeysOf(cs), k, now);
        RoomAt(start, w.room, |KeysOf(cs) - start.Keys|, KeysOf(cs), maxEntries, k, now);
        if HasKey(cs, k) {
          var i :| 0 <= i < |cs| && cs[i].key == k;
          ChargedOne(w.room, cs, cfg.window, now, true, i);
        } else {
          ChargedOther(w.room, cs, cfg.window, now, true, k);
        }
      } else {
        RefusedKeeps(w.mid, s'.local, k, now);
      }
    }
  }

  lemma MidKeys(t: Table, mid: Table, k: Key, now: int)
    requires SameLive(t, mid, now) && (k in t ==> IsLive(t, k, now))
    ensures k in mid <==> k in t
  {
    LiveAt(t, mid, k, now);
  }

  lemma PurgedKeys(t: Table, keys: set<Key>, k: Key, now: int)
    ensures k in Purged(t, keys, now) ==> k in t
  {
  }

  lemma RefusedKeeps(t: Table, t': Table, k: Key, now: int)
    requires t'.Keys <= t.Keys && Live(t', now) == Live(t, now) && (forall x | x in t' :: t'[x] == t[x])
    requires k in t ==> IsLive(t, k, now)
    ensures (k in t <==> k in t') && (k in t ==> t'[k] == t[k])
  {
    LiveAt(t, t', k, now);
  }
}
