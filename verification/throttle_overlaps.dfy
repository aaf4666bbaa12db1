// Calls of the login throttle that overlap. A call has a section in Redis, one script, and later a
// section in the local table: mirror after an attempt, local.release after a success or a
// cancellation. Between the two any number of sections of other calls can run.
module ThrottleOverlaps {
  import opened Text
  import opened LoginCounters
  import opened LoginThrottle
  import opened ThrottleRuns

  // ---------------------------------------------------------------------------------------------
  // Calls between their two sections
  // ---------------------------------------------------------------------------------------------

  /** A call whose section in Redis is done; before is what Redis held. */
  datatype Flight =
    | Asked(cs: seq<LoginCounter>, now: int, before: Db, reply: Reply)
    | Handing(cs: seq<LoginCounter>, clearAccount: bool, now: int, before: Db)

  /** What Redis held after the section of the call. */
  function After(p: Flight): Db {
    match p
    case Asked(_, _, _, reply) => reply.db
    case Handing(cs, clearAccount, now, before) => ReleaseAll(before, ReleaseModes(cs, true, clearAccount), Millis(now))
  }

  /** The counters that the section in the table writes: all, or the one that Redis named. */
  function Involved(p: Flight): seq<LoginCounter> {
    match p
    case Asked(cs, _, _, reply) => if 0 < reply.index <= |cs| then [cs[reply.index - 1]] else cs
    case Handing(cs, _, _, _) => cs
  }

  predicate Involves(p: Flight, k: Key) {
    HasKey(Involved(p), k)
  }

  predicate FlightOk(cfg: Config, p: Flight, drift: int) {
    && DistinctKeys(p.cs)
    && (p.Asked? ==>
          && Limits(cfg, p.cs) && cfg.window >= MILLISECOND && Within(cfg, p.now, drift)
          && p.reply == AskedReply(cfg, p.before, p.cs, p.now))
  }

  /** pending holds the calls between their sections, in the order of the first ones; clock is the latest reading. */
  datatype World = World(s: State, pending: seq<Flight>, clock: int)

  /** One section. An attempt reads the clock once, a release again before it enters the table. */
  datatype Move =
    | Ask(account: string, ip: string, now: int)
    | Mirror(i: nat, dropped: nat, room: Table)
    | Hand(cs: seq<LoginCounter>, clearAccount: bool, now: int)
    | Return(i: nat, at: int)

  function Without<T>(xs: seq<T>, i: nat): seq<T>
    requires i < |xs|
  {
    xs[..i] + xs[i + 1..]
  }

  ghost predicate Moves(cfg: Config, maxEntries: nat, w: World, w': World, m: Move) {
    match m
    case Ask(account, ip, now) =>
      var cs := CountersFor(cfg, account, ip);
      var r := AskedReply(cfg, w.s.db, cs, now);
      && cs != [] && w.clock <= now && !Holds(w.s.local, cs, now)
      && SameLive(w.s.local, w'.s.local, now)
      && w' == World(State(w'.s.local, r.db), w.pending + [Asked(cs, now, w.s.db, r)], now)
    case Mirror(i, dropped, room) =>
      && i < |w.pending| && w.pending[i].Asked?
      && var p := w.pending[i];
         && p.reply.index <= |p.cs|
         && Repeated(cfg, maxEntries, p.reply, w.s.local, w'.s.local, p.cs, p.now, dropped, room)
         && w' == World(State(w'.s.local, w.s.db), Without(w.pending, i), w.clock)
    case Hand(cs, clearAccount, now) =>
      && cs != [] && DistinctKeys(cs) && w.clock <= now
      && var p := Handing(cs, clearAccount, now, w.s.db);
         w' == World(State(w.s.local, After(p)), w.pending + [p], now)
    case Return(i, at) =>
      && i < |w.pending| && w.pending[i].Handing? && w.clock <= at
      && var p := w.pending[i];
         w' == World(State(Released(w.s.local, p.cs, true, p.clearAccount, at), w.s.db), Without(w.pending, i), at)
  }

  /** A run in which Redis answers every call, from empty counters. */
  ghost predicate OverlapRun(cfg: Config, maxEntries: nat, worlds: seq<World>, moves: seq<Move>) {
    && |worlds| == |moves| + 1 && worlds[0].s == State(map[], map[]) && worlds[0].pending == []
    && forall i | 0 <= i < |moves| :: Moves(cfg, maxEntries, worlds[i], worlds[i + 1], moves[i])
  }

  // ---------------------------------------------------------------------------------------------
  // When overlapping does no harm
  // ---------------------------------------------------------------------------------------------

  /** The call's section in the table comes before those of later calls that share a counter with it. */
  ghost predicate KeepsOrder(w: World, m: Move) {
    m.Mirror? || m.Return? ==>
      m.i < |w.pending| && forall j, k | 0 <= j < m.i && Involves(w.pending[j], k) :: !Involves(w.pending[m.i], k)
  }

  function Reading(w: World, m: Move): int {
    match m
    case Ask(_, _, now) => now
    case Mirror(i, _, _) => if i < |w.pending| then w.pending[i].now else w.clock
    case Hand(_, _, now) => now
    case Return(_, at) => at
  }

  /** The section drops no counter as over that a call on its way, with an earlier reading, would find live. */
  ghost predicate CutsNothingShort(w: World, w': World, m: Move) {
    forall j, k | 0 <= j < |w'.pending| && Involves(w'.pending[j], k) :: Spared(w.s.local, w'.s.local, k, w'.pending[j].now, Reading(w, m))
  }

  predicate Spared(t: Table, t': Table, k: Key, earlier: int, reading: int) {
    IsLive(t, k, earlier) && !IsLive(t, k, reading) ==> k in t' && t'[k] == t[k]
  }

  /** The conditions of Simulation: no live counter is evicted, and the section is quiet. */
  ghost predicate Calm(w: World, m: Move, drift: int) {
    match m
    case Ask(_, _, _) => true
    case Mirror(i, dropped, _) =>
      dropped == 0 && i < |w.pending| &&
      var p := w.pending[i];
      p.Asked? && p.reply.index == 0 && drift != 0 ==> AllSettled(State(w.s.local, p.before), p.cs, p.now)
    case Hand(_, _, _) => true
    case Return(i, _) =>
      i < |w.pending| &&
      var p := w.pending[i];
      p.Handing? && drift != 0 ==> Releasable(State(w.s.local, p.before), p.cs, p.clearAccount, p.now)
  }

  ghost predicate Orderly(w: World, w': World, m: Move, drift: int) {
    KeepsOrder(w, m) && CutsNothingShort(w, w', m) && Calm(w, m, drift)
  }

  /** What Redis held when the first call that is on its way with k came by: what the table should repeat for k. */
  function Lag(pending: seq<Flight>, db: Db, k: Key): Db {
    if pending == [] then db else if Involves(pending[0], k) then pending[0].before else Lag(pending[1..], db, k)
  }

  /** Each call on its way with k left Redis as the next one found it. */
  ghost predicate Chained(pending: seq<Flight>, db: Db, k: Key) {
    pending == [] || ((Involves(pending[0], k) ==> SameEntry(After(pending[0]), Lag(pending[1..], db, k), k)) && Chained(pending[1..], db, k))
  }

  /** The table repeats Redis as it was before the calls that are on their way. */
  ghost predicate AgreesSince(cfg: Config, w: World, k: Key, now: int, drift: int) {
    AgreeAt(cfg, State(w.s.local, Lag(w.pending, w.s.db, k)), k, now, drift)
  }

  ghost predicate InStep(cfg: Config, w: World, k: Key, drift: int) {
    && Chained(w.pending, w.s.db, k)
    && AgreesSince(cfg, w, k, w.clock, drift)
    && forall j | 0 <= j < |w.pending| && Involves(w.pending[j], k) :: AgreesSince(cfg, w, k, w.pending[j].now, drift)
  }

  ghost predicate Synced(cfg: Config, w: World, drift: int) {
    && (forall j | 0 <= j < |w.pending| :: FlightOk(cfg, w.pending[j], drift) && w.pending[j].now <= w.clock)
    && (forall i, j | 0 <= i <= j < |w.pending| :: w.pending[i].now <= w.pending[j].now)
    && forall k :: InStep(cfg, w, k, drift)
  }

  // Lag and Chained under the two changes of pending.

  lemma {:induction false} LagAppended(pending: seq<Flight>, db: Db, p: Flight, k: Key)
    requires p.before == db && Chained(pending, db, k)
    requires !Involves(p, k) ==> SameEntry(After(p), db, k)
    ensures SameEntry(Lag(pending + [p], After(p), k), Lag(pending, db, k), k)
    ensures Chained(pending + [p], After(p), k)
    decreases |pending|
  {
    hide After, Involves;
    if pending == [] {
      assert pending + [p] == [p];
      assert [p][1..] == [];
    } else {
      assert (pending + [p])[0] == pending[0] && (pending + [p])[1..] == pending[1..] + [p];
      LagAppended(pending[1..], db, p, k);
    }
  }

  lemma {:induction false} LagElsewhere(pending: seq<Flight>, db: Db, i: nat, k: Key)
    requires i < |pending| && !Involves(pending[i], k) && Chained(pending, db, k)
    ensures Lag(Without(pending, i), db, k) == Lag(pending, db, k)
    ensures Chained(Without(pending, i), db, k)
    decreases |pending|
  {
    hide After, Involves;
    if i == 0 {
      assert Without(pending, 0) == pending[1..];
    } else {
      assert Without(pending, i)[0] == pending[0] && Without(pending, i)[1..] == Without(pending[1..], i - 1);
      LagElsewhere(pending[1..], db, i - 1, k);
    }
  }

  lemma {:induction false} LagLanded(pending: seq<Flight>, db: Db, i: nat, k: Key)
    requires i < |pending| && Involves(pending[i], k) && Chained(pending, db, k)
    requires forall j | 0 <= j < i :: !Involves(pending[j], k)
    ensures Lag(pending, db, k) == pending[i].before
    ensures SameEntry(After(pending[i]), Lag(Without(pending, i), db, k), k)
    ensures Chained(Without(pending, i), db, k)
    decreases |pending|
  {
    hide After, Involves;
    if i == 0 {
      assert Without(pending, 0) == pending[1..];
    } else {
      assert Without(pending, i)[0] == pending[0] && Without(pending, i)[1..] == Without(pending[1..], i - 1);
      assert forall j | 0 <= j < i - 1 :: pending[1..][j] == pending[j + 1];
      LagLanded(pending[1..], db, i - 1, k);
    }
  }

  lemma {:induction false} NothingOnItsWay(pending: seq<Flight>, db: Db, k: Key)
    requires forall p | p in pending :: !Involves(p, k)
    ensures Lag(pending, db, k) == db
    decreases |pending|
  {
    hide Involves;
    if pending != [] {
      assert pending[0] in pending;
      assert forall p | p in pending[1..] :: p in pending;
      NothingOnItsWay(pending[1..], db, k);
    }
  }

  // ---------------------------------------------------------------------------------------------
  // One counter
  // ---------------------------------------------------------------------------------------------

  /** What a call does to one counter. */
  datatype Touch = Charging | Marking(ttl: int) | Refunding | Clearing

  function InRedis(cfg: Config, db: Db, k: Key, x: Touch, now: int): Db {
    match x
    case Charging => IncrOne(db, k, Millis(cfg.window), Millis(now))
    case Marking(_) => db
    case Refunding => ReleaseKey(db, k, Refund, Millis(now))
    case Clearing => ReleaseKey(db, k, Clear, Millis(now))
  }

  function InTable(cfg: Config, t: Table, c: LoginCounter, x: Touch, now: int): Table {
    match x
    case Charging => t[c.key := ChargedEntry(Purged(t, {c.key}, now), c, cfg.window, now, false)]
    case Marking(ttl) => t[c.key := Counter(c.limit, 0, c.limit, now + ttl * MILLISECOND)]
    case Refunding => ReleasedOne(t, c, true, false, now)
    case Clearing => t - {c.key}
  }

  /** What a call does to the counter c that it involves. */
  function TouchOf(p: Flight, c: LoginCounter): Touch {
    match p
    case Asked(_, _, _, reply) => if reply.index == 0 then Charging else Marking(reply.ttl)
    case Handing(_, clearAccount, _, _) => if Cleared(c, clearAccount) then Clearing else Refunding
  }

  /** When Redis answers with this touch. */
  predicate Answers(cfg: Config, db: Db, c: LoginCounter, x: Touch, now: int) {
    match x
    case Charging => Get(db, c.key, Millis(now)) < c.limit
    case Marking(ttl) => Get(db, c.key, Millis(now)) >= c.limit && ttl == PTtl(db, c.key, Millis(now))
    case Refunding => true
    case Clearing => true
  }

  lemma RedisElse(cfg: Config, p: Flight, drift: int, k: Key)
    requires FlightOk(cfg, p, drift) && !Involves(p, k)
    ensures SameEntry(After(p), p.before, k)
  {
    hide IncrAll, IncrOne, ReleaseAll, ReleaseModes, DistinctKeys, Limits, FirstFull;
    match p
    case Asked(cs, now, before, reply) =>
      if reply.index == 0 {
        IncrOther(before, cs, Millis(cfg.window), Millis(now), k);
      } else {
        assert Involved(p)[0].key != k;
      }
    case Handing(cs, clearAccount, now, before) =>
      ReleaseAllElse(before, cs, clearAccount, Millis(now), k);
  }

  lemma RedisTouched(cfg: Config, p: Flight, drift: int, t: Table, i: nat)
    requires FlightOk(cfg, p, drift) && i < |Involved(p)| && AgreeAt(cfg, State(t, p.before), Involved(p)[i].key, p.now, drift)
    ensures var c := Involved(p)[i];
            && SameEntry(After(p), InRedis(cfg, p.before, c.key, TouchOf(p, c), p.now), c.key)
            && Answers(cfg, p.before, c, TouchOf(p, c), p.now)
            && (p.Asked? ==> c.limit == Limit(cfg, c.key) > 0)
  {
    hide IncrAll, IncrOne, ReleaseAll, ReleaseModes, ReleaseKey, DistinctKeys;
    match p
    case Asked(cs, now, before, reply) =>
      if reply.index == 0 {
        IncrAt(before, cs, Millis(cfg.window), Millis(now), i);
        NotFull(before, cs, Millis(now), i);
      }
    case Handing(cs, clearAccount, now, before) =>
      ReleaseAllAt(before, cs, clearAccount, Millis(now), i);
  }

  /** mirror does to each counter it involves what the touch says. */
  lemma MirrorTouched(cfg: Config, maxEntries: nat, p: Flight, drift: int, t: Table, t': Table, room: Table, i: nat)
    requires FlightOk(cfg, p, drift) && p.Asked? && i < |Involved(p)| && AgreeAt(cfg, State(t, p.before), Involved(p)[i].key, p.now, drift)
    requires Repeated(cfg, maxEntries, p.reply, t, t', p.cs, p.now, 0, room)
    ensures var c := Involved(p)[i]; SameEntry(t', InTable(cfg, t, c, TouchOf(p, c), p.now), c.key)
  {
    hide AskedReply, RoomMade, Charged, KeysOf, DistinctKeys, Limits, InTable, SameEntry, MarkedExhausted, Within, Purged;
    var c := Involved(p)[i];
    if p.reply.index == 0 {
      ChargeTouched(cfg, maxEntries, t, t', p.cs, p.now, room, i);
    } else {
      NoLocalCharges(cfg, t, p.before, c.key, p.now, drift);
      MarkTouched(cfg, maxEntries, t, t', c, p.reply.ttl, p.now, room);
    }
  }

  lemma NoLocalCharges(cfg: Config, t: Table, db: Db, k: Key, now: int, drift: int)
    requires AgreeAt(cfg, State(t, db), k, now, drift)
    ensures !(IsLive(t, k, now) && t[k].unshared > 0)
  {
  }

  lemma KeptAt(t: Table, room: Table, need: nat, keep: set<Key>, maxEntries: nat, now: int, dropped: nat, k: Key)
    requires RoomMade(Purged(t, keep, now), room, need, keep, maxEntries, now, dropped) && k in keep
    ensures k in room <==> IsLive(t, k, now)
    ensures IsLive(t, k, now) ==> room[k] == t[k]
  {
    hide Live;
    PurgedAt(t, keep, k, now);
  }

  /** What a charge with this reading makes of the counter. */
  function OneMore(cfg: Config, t: Table, c: LoginCounter, now: int): Counter {
    if IsLive(t, c.key, now) then t[c.key].(count := t[c.key].count + 1, limit := c.limit) else Counter(1, 0, c.limit, now + cfg.window)
  }

  lemma ChargedIs(cfg: Config, maxEntries: nat, t: Table, t': Table, cs: seq<LoginCounter>, now: int, dropped: nat, room: Table, i: nat)
    requires DistinctKeys(cs) && i < |cs|
    requires var start := Purged(t, KeysOf(cs), now);
             RoomMade(start, room, |KeysOf(cs) - start.Keys|, KeysOf(cs), maxEntries, now, dropped)
    requires t' == Charged(room, cs, cfg.window, now, false)
    ensures cs[i].key in t' && t'[cs[i].key] == OneMore(cfg, t, cs[i], now)
  {
    hide RoomMade, Charged, KeysOf, DistinctKeys, Purged, Live, IsLive;
    assert HasKey(cs, cs[i].key);
    KeysOfHas(cs, cs[i].key);
    KeptAt(t, room, |KeysOf(cs) - Purged(t, KeysOf(cs), now).Keys|, KeysOf(cs), maxEntries, now, dropped, cs[i].key);
    ChargedOne(room, cs, cfg.window, now, false, i);
  }

  lemma ChargeTouched(cfg: Config, maxEntries: nat, t: Table, t': Table, cs: seq<LoginCounter>, now: int, room: Table, i: nat)
    requires DistinctKeys(cs) && i < |cs|
    requires var start := Purged(t, KeysOf(cs), now);
             RoomMade(start, room, |KeysOf(cs) - start.Keys|, KeysOf(cs), maxEntries, now, 0)
    requires t' == Charged(room, cs, cfg.window, now, false)
    ensures SameEntry(t', InTable(cfg, t, cs[i], Charging, now), cs[i].key)
  {
    hide RoomMade, Charged, KeysOf, DistinctKeys, Purged, InTable, OneMore;
    ChargedIs(cfg, maxEntries, t, t', cs, now, 0, room, i);
    OneMoreIs(cfg, t, cs[i], now);
  }

  lemma OneMoreIs(cfg: Config, t: Table, c: LoginCounter, now: int)
    ensures c.key in InTable(cfg, t, c, Charging, now) && InTable(cfg, t, c, Charging, now)[c.key] == OneMore(cfg, t, c, now)
  {
    hide Purged;
    PurgedAt(t, {c.key}, c.key, now);
  }

  lemma MarkTouched(cfg: Config, maxEntries: nat, t: Table, t': Table, c: LoginCounter, ttl: int, now: int, room: Table)
    requires !(IsLive(t, c.key, now) && t[c.key].unshared > 0)
    requires MarkedExhausted(t, t', c, ttl * MILLISECOND, now, maxEntries, 0, room)
    ensures SameEntry(t', InTable(cfg, t, c, Marking(ttl), now), c.key)
  {
    hide RoomMade, Purged;
  }

  /** What mirror does to the counters it does not involve. */
  ghost predicate Framed(t: Table, t': Table, k: Key, now: int) {
    (k in t' ==> k in t && t'[k] == t[k]) && (IsLive(t, k, now) ==> k in t')
  }

  lemma MirrorElse(cfg: Config, maxEntries: nat, p: Flight, drift: int, t: Table, t': Table, room: Table, k: Key)
    requires FlightOk(cfg, p, drift) && p.Asked? && !Involves(p, k)
    requires Repeated(cfg, maxEntries, p.reply, t, t', p.cs, p.now, 0, room)
    ensures Framed(t, t', k, p.now)
  {
    hide AskedReply, RoomMade, Charged, KeysOf, SameLive, DistinctKeys, Limits;
    if p.reply.index == 0 {
      var start := Purged(t, KeysOf(p.cs), p.now);
      PurgedAt(t, KeysOf(p.cs), k, p.now);
      PurgedKeys(t, KeysOf(p.cs), k, p.now);
      RoomAt(start, room, |KeysOf(p.cs) - start.Keys|, KeysOf(p.cs), maxEntries, k, p.now);
      RoomValues(start, room, |KeysOf(p.cs) - start.Keys|, KeysOf(p.cs), maxEntries, p.now);
      ChargedOther(room, p.cs, cfg.window, p.now, false, k);
    } else {
      var c := p.cs[p.reply.index - 1];
      assert Involved(p)[0] == c && c.key != k;
      MarkElse(t, t', c, p.reply.ttl * MILLISECOND, p.now, maxEntries, room, k);
    }
  }

  lemma RoomValues(t: Table, room: Table, need: nat, keep: set<Key>, maxEntries: nat, now: int)
    requires RoomMade(t, room, need, keep, maxEntries, now, 0)
    ensures forall k | k in room :: k in t && room[k] == t[k]
  {
  }

  lemma MarkElse(t: Table, t': Table, c: LoginCounter, remaining: int, now: int, maxEntries: nat, room: Table, k: Key)
    requires MarkedExhausted(t, t', c, remaining, now, maxEntries, 0, room) && k != c.key
    ensures Framed(t, t', k, now)
  {
    hide RoomMade;
    var start := Purged(t, {c.key}, now);
    PurgedAt(t, {c.key}, k, now);
    if !IsLive(t, c.key, now) {
      RoomAt(start, room, 1, {c.key}, maxEntries, k, now);
      RoomValues(start, room, 1, {c.key}, maxEntries, now);
    }
  }

  /** A counter that is only framed keeps agreeing at every reading for which it is spared. */
  lemma FramedAgrees(cfg: Config, t: Table, t': Table, db: Db, k: Key, now: int, reading: int, drift: int)
    requires AgreeAt(cfg, State(t, db), k, now, drift) && Framed(t, t', k, reading) && Spared(t, t', k, now, reading)
    ensures AgreeAt(cfg, State(t', db), k, now, drift)
  {
  }

  /** An attempt's touch keeps the agreement, from its reading on. */
  lemma {:induction false} AttemptAgrees(cfg: Config, s: State, c: LoginCounter, x: Touch, now: int, drift: int)
    requires AgreeAt(cfg, s, c.key, now, drift) && c.limit == Limit(cfg, c.key) > 0 && cfg.window >= MILLISECOND && Within(cfg, now, drift)
    requires x.Charging? || x.Marking?
    requires Answers(cfg, s.db, c, x, now) && (x.Charging? ==> Settled(s, c.key, now))
    ensures AgreeAt(cfg, State(InTable(cfg, s.local, c, x, now), InRedis(cfg, s.db, c.key, x, now)), c.key, now, drift)
  {
    hide IncrOne;
    if x.Charging? {
      PurgedAt(s.local, {c.key}, c.key, now);
      ChargedOnceAgrees(cfg, s, InTable(cfg, s.local, c, x, now), c, InRedis(cfg, s.db, c.key, x, now), now, drift);
    }
  }

  /** A release that reaches the table later keeps it too, at every reading for which the counter is spared. */
  lemma {:induction false} ReleaseTouchAgrees(cfg: Config, s: State, c: LoginCounter, x: Touch, now: int, at: int, later: int, drift: int)
    requires AgreeAt(cfg, s, c.key, now, drift) && now <= at && now <= later
    requires x.Clearing? || (x.Refunding? && Refundable(s, c.key, now))
    requires IsLive(s.local, c.key, later) ==> IsLive(s.local, c.key, at)
    ensures AgreeAt(cfg, State(InTable(cfg, s.local, c, x, at), InRedis(cfg, s.db, c.key, x, now)), c.key, later, drift)
  {
  }

  // ---------------------------------------------------------------------------------------------
  // One section
  // ---------------------------------------------------------------------------------------------

  lemma AgreesLater(cfg: Config, w: World, k: Key, now: int, later: int, drift: int)
    requires AgreesSince(cfg, w, k, now, drift) && now <= later
    ensures AgreesSince(cfg, w, k, later, drift)
  {
  }

  /** Over a section that does not involve k. */
  lemma Carried(cfg: Config, w: World, w': World, k: Key, now: int, reading: int, drift: int)
    requires AgreesSince(cfg, w, k, now, drift)
    requires Framed(w.s.local, w'.s.local, k, reading) && Spared(w.s.local, w'.s.local, k, now, reading)
    requires SameEntry(Lag(w'.pending, w'.s.db, k), Lag(w.pending, w.s.db, k), k)
    ensures AgreesSince(cfg, w', k, now, drift)
  {
    hide AgreeAt, Framed, Spared, Lag, SameEntry;
    var before, after := Lag(w.pending, w.s.db, k), Lag(w'.pending, w'.s.db, k);
    FramedAgrees(cfg, w.s.local, w'.s.local, before, k, now, reading, drift);
    SameSelf(w'.s.local, k);
    AgreeAtSame(cfg, State(w'.s.local, after), State(w'.s.local, before), k, now, drift);
  }

  lemma SameSelf<V>(m: map<Key, V>, k: Key)
    ensures SameEntry(m, m, k)
  {
  }

  /** At the latest reading everything is spared. */
  lemma SparedLast(t: Table, t': Table, k: Key, latest: int, reading: int)
    requires reading <= latest
    ensures Spared(t, t', k, latest, reading)
  {
  }

  lemma FramedSame(t: Table, k: Key, now: int, earlier: int)
    ensures Framed(t, t, k, now) && Spared(t, t, k, earlier, now)
  {
  }

  lemma FramedLive(t: Table, t': Table, k: Key, now: int)
    requires SameLive(t, t', now)
    ensures Framed(t, t', k, now)
  {
    LiveAt(t, t', k, now);
  }

  /** A section in Redis: p sets off. */
  lemma SetOff(cfg: Config, w: World, w': World, p: Flight, k: Key, drift: int)
    requires Synced(cfg, w, drift) && FlightOk(cfg, p, drift) && w.clock <= p.now && p.before == w.s.db
    requires w' == World(State(w'.s.local, After(p)), w.pending + [p], p.now)
    requires Framed(w.s.local, w'.s.local, k, p.now)
    requires forall j | 0 <= j < |w'.pending| && Involves(w'.pending[j], k) :: Spared(w.s.local, w'.s.local, k, w'.pending[j].now, p.now)
    ensures InStep(cfg, w', k, drift)
  {
    hide AgreesSince, After, Involves, Framed, Spared, FlightOk, Lag, Chained, SameEntry;
    assert InStep(cfg, w, k, drift);
    if !Involves(p, k) {
      RedisElse(cfg, p, drift, k);
    }
    LagAppended(w.pending, w.s.db, p, k);
    AgreesLater(cfg, w, k, w.clock, p.now, drift);
    SparedLast(w.s.local, w'.s.local, k, p.now, p.now);
    Carried(cfg, w, w', k, p.now, p.now, drift);
    forall j | 0 <= j < |w'.pending| && Involves(w'.pending[j], k) ensures AgreesSince(cfg, w', k, w'.pending[j].now, drift) {
      if j < |w.pending| {
        assert w'.pending[j] == w.pending[j];
        Carried(cfg, w, w', k, w.pending[j].now, p.now, drift);
      }
    }
  }

  lemma AskKeepsStep(cfg: Config, maxEntries: nat, w: World, w': World, m: Move, drift: int)
    requires Synced(cfg, w, drift) && Moves(cfg, maxEntries, w, w', m) && m.Ask? && CutsNothingShort(w, w', m)
    requires cfg.window >= MILLISECOND && Within(cfg, m.now, drift)
    ensures Synced(cfg, w', drift)
  {
    hide InStep, AskedReply, Framed, Spared, SameLive, Holds, Within, DistinctKeys, Involves;
    var p := w'.pending[|w.pending|];
    assert FlightOk(cfg, p, drift);
    forall k ensures InStep(cfg, w', k, drift) {
      FramedLive(w.s.local, w'.s.local, k, p.now);
      SetOff(cfg, w, w', p, k, drift);
    }
    QueueGrows(cfg, w, w', p, drift);
  }

  lemma HandKeepsStep(cfg: Config, maxEntries: nat, w: World, w': World, m: Move, drift: int)
    requires Synced(cfg, w, drift) && Moves(cfg, maxEntries, w, w', m) && m.Hand?
    ensures Synced(cfg, w', drift)
  {
    hide InStep, After, Framed, Spared, DistinctKeys, Involves;
    var p := w'.pending[|w.pending|];
    assert FlightOk(cfg, p, drift);
    forall k ensures InStep(cfg, w', k, drift) {
      FramedSame(w.s.local, k, p.now, p.now);
      forall j | 0 <= j < |w'.pending| && Involves(w'.pending[j], k) ensures Spared(w.s.local, w'.s.local, k, w'.pending[j].now, p.now) {
        FramedSame(w.s.local, k, p.now, w'.pending[j].now);
      }
      SetOff(cfg, w, w', p, k, drift);
    }
    QueueGrows(cfg, w, w', p, drift);
  }

  lemma QueueGrows(cfg: Config, w: World, w': World, p: Flight, drift: int)
    requires Synced(cfg, w, drift) && FlightOk(cfg, p, drift) && w.clock <= p.now
    requires w'.pending == w.pending + [p] && w'.clock == p.now && forall k :: InStep(cfg, w', k, drift)
    ensures Synced(cfg, w', drift)
  {
    hide InStep, FlightOk;
  }

  lemma QueueShrinks(cfg: Config, w: World, w': World, i: nat, drift: int)
    requires Synced(cfg, w, drift) && i < |w.pending| && w.clock <= w'.clock
    requires w'.pending == Without(w.pending, i) && forall k :: InStep(cfg, w', k, drift)
    ensures Synced(cfg, w', drift)
  {
    hide InStep, FlightOk;
    assert forall j | 0 <= j < |w'.pending| :: w'.pending[j] == w.pending[if j < i then j else j + 1];
  }

  /** A section in the table that does not involve k. */
  lemma LandedElsewhere(cfg: Config, w: World, w': World, i: nat, k: Key, reading: int, drift: int)
    requires Synced(cfg, w, drift) && i < |w.pending| && !Involves(w.pending[i], k)
    requires w'.s.db == w.s.db && w'.pending == Without(w.pending, i) && w.clock <= w'.clock && reading <= w'.clock
    requires Framed(w.s.local, w'.s.local, k, reading)
    requires forall j | 0 <= j < |w'.pending| && Involves(w'.pending[j], k) :: Spared(w.s.local, w'.s.local, k, w'.pending[j].now, reading)
    ensures InStep(cfg, w', k, drift)
  {
    hide AgreesSince, After, Involves, Framed, Spared, FlightOk, Lag, Chained, SameEntry;
    assert InStep(cfg, w, k, drift);
    LagElsewhere(w.pending, w.s.db, i, k);
    SameSelf(Lag(w.pending, w.s.db, k), k);
    AgreesLater(cfg, w, k, w.clock, w'.clock, drift);
    SparedLast(w.s.local, w'.s.local, k, w'.clock, reading);
    Carried(cfg, w, w', k, w'.clock, reading, drift);
    forall j | 0 <= j < |w'.pending| && Involves(w'.pending[j], k) ensures AgreesSince(cfg, w', k, w'.pending[j].now, drift) {
      assert w'.pending[j] == w.pending[if j < i then j else j + 1];
      Carried(cfg, w, w', k, w'.pending[j].now, reading, drift);
    }
  }

  /** A section in the table that involves k, when its effect is right at every reading that counts. */
  lemma LandedHere(cfg: Config, w: World, w': World, i: nat, k: Key, drift: int)
    requires Synced(cfg, w, drift) && i < |w.pending| && Involves(w.pending[i], k)
    requires forall j | 0 <= j < i :: !Involves(w.pending[j], k)
    requires w'.s.db == w.s.db && w'.pending == Without(w.pending, i)
    requires AgreeAt(cfg, State(w'.s.local, After(w.pending[i])), k, w'.clock, drift)
    requires forall j | 0 <= j < |w'.pending| && Involves(w'.pending[j], k) ::
               AgreeAt(cfg, State(w'.s.local, After(w.pending[i])), k, w'.pending[j].now, drift)
    ensures InStep(cfg, w', k, drift)
  {
    hide AgreeAt, After, Involves, FlightOk, Lag, Chained, SameEntry;
    assert InStep(cfg, w, k, drift);
    LagLanded(w.pending, w.s.db, i, k);
    SameSelf(w'.s.local, k);
    var db, lag := After(w.pending[i]), Lag(w'.pending, w'.s.db, k);
    AgreeAtSame(cfg, State(w'.s.local, db), State(w'.s.local, lag), k, w'.clock, drift);
    forall j | 0 <= j < |w'.pending| && Involves(w'.pending[j], k) ensures AgreesSince(cfg, w', k, w'.pending[j].now, drift) {
      AgreeAtSame(cfg, State(w'.s.local, db), State(w'.s.local, lag), k, w'.pending[j].now, drift);
    }
  }

  /** Before its section in the table, the call finds the table as Redis was before its first one. */
  lemma FirstInLine(cfg: Config, w: World, i: nat, k: Key, drift: int)
    requires Synced(cfg, w, drift) && i < |w.pending| && Involves(w.pending[i], k)
    requires forall j | 0 <= j < i :: !Involves(w.pending[j], k)
    ensures AgreeAt(cfg, State(w.s.local, w.pending[i].before), k, w.pending[i].now, drift)
  {
    hide AgreeAt, After, Involves, FlightOk, Lag, Chained;
    assert InStep(cfg, w, k, drift);
    LagLanded(w.pending, w.s.db, i, k);
  }

  /** Those that share a counter with it come after it. */
  lemma OthersAreLater(cfg: Config, w: World, i: nat, k: Key, j: nat, drift: int)
    requires Synced(cfg, w, drift) && i < |w.pending| && j < |w.pending| - 1
    requires forall l | 0 <= l < i :: !Involves(w.pending[l], k)
    requires Involves(Without(w.pending, i)[j], k)
    ensures w.pending[i].now <= Without(w.pending, i)[j].now <= w.clock
  {
    hide InStep, FlightOk, Involves;
    assert Without(w.pending, i)[j] == w.pending[if j < i then j else j + 1];
  }

  lemma MirrorHere(cfg: Config, maxEntries: nat, w: World, w': World, m: Move, k: Key, drift: int)
    requires Synced(cfg, w, drift) && Moves(cfg, maxEntries, w, w', m) && m.Mirror? && KeepsOrder(w, m) && Calm(w, m, drift)
    requires Involves(w.pending[m.i], k)
    ensures InStep(cfg, w', k, drift)
  {
    hide InStep, After, AgreeAt, Repeated, InTable, InRedis, TouchOf, Answers, SameEntry, AllSettled;
    var p := w.pending[m.i];
    var i :| 0 <= i < |Involved(p)| && Involved(p)[i].key == k;
    var c := Involved(p)[i];
    FirstInLine(cfg, w, m.i, k, drift);
    RedisTouched(cfg, p, drift, w.s.local, i);
    MirrorTouched(cfg, maxEntries, p, drift, w.s.local, w'.s.local, m.room, i);
    ChargeIsCalm(cfg, w, m, i, drift);
    AttemptAgrees(cfg, State(w.s.local, p.before), c, TouchOf(p, c), p.now, drift);
    var t, db := InTable(cfg, w.s.local, c, TouchOf(p, c), p.now), InRedis(cfg, p.before, k, TouchOf(p, c), p.now);
    AgreeAtSame(cfg, State(w'.s.local, After(p)), State(t, db), k, p.now, drift);
    AgreeAtLater(cfg, State(w'.s.local, After(p)), k, p.now, w.clock, drift);
    forall j | 0 <= j < |w'.pending| && Involves(w'.pending[j], k)
      ensures AgreeAt(cfg, State(w'.s.local, After(p)), k, w'.pending[j].now, drift)
    {
      OthersAreLater(cfg, w, m.i, k, j, drift);
      AgreeAtLater(cfg, State(w'.s.local, After(p)), k, p.now, w'.pending[j].now, drift);
    }
    LandedHere(cfg, w, w', m.i, k, drift);
  }

  lemma AgreeAtLater(cfg: Config, s: State, k: Key, now: int, later: int, drift: int)
    requires AgreeAt(cfg, s, k, now, drift) && now <= later
    ensures AgreeAt(cfg, s, k, later, drift)
  {
  }

  lemma ChargeIsCalm(cfg: Config, w: World, m: Move, i: nat, drift: int)
    requires m.Mirror? && m.i < |w.pending| && w.pending[m.i].Asked? && Calm(w, m, drift) && i < |Involved(w.pending[m.i])|
    requires FlightOk(cfg, w.pending[m.i], drift)
    requires AgreeAt(cfg, State(w.s.local, w.pending[m.i].before), Involved(w.pending[m.i])[i].key, w.pending[m.i].now, drift)
    ensures var p := w.pending[m.i]; var c := Involved(p)[i];
            TouchOf(p, c).Charging? ==> Settled(State(w.s.local, p.before), c.key, p.now)
    ensures TouchOf(w.pending[m.i], Involved(w.pending[m.i])[i]).Charging? || TouchOf(w.pending[m.i], Involved(w.pending[m.i])[i]).Marking?
  {
    hide AgreeAt, Settled, AllSettled, AskedReply;
    var p := w.pending[m.i];
    if p.reply.index == 0 {
      AgreeMeans(cfg, State(w.s.local, p.before), p.cs[i].key, p.now, drift);
      if drift != 0 {
        SettledAt(State(w.s.local, p.before), p.cs, p.now, i);
      }
    }
  }

  lemma MirrorKeepsStep(cfg: Config, maxEntries: nat, w: World, w': World, m: Move, drift: int)
    requires Synced(cfg, w, drift) && Moves(cfg, maxEntries, w, w', m) && m.Mirror? && Orderly(w, w', m, drift)
    ensures Synced(cfg, w', drift)
  {
    hide InStep, Repeated, Involves, Framed, Spared, FlightOk, KeepsOrder;
    forall k ensures InStep(cfg, w', k, drift) {
      if Involves(w.pending[m.i], k) {
        MirrorHere(cfg, maxEntries, w, w', m, k, drift);
      } else {
        MirrorElse(cfg, maxEntries, w.pending[m.i], drift, w.s.local, w'.s.local, m.room, k);
        LandedElsewhere(cfg, w, w', m.i, k, w.pending[m.i].now, drift);
      }
    }
    QueueShrinks(cfg, w, w', m.i, drift);
  }

  /** Where the release finds the counter over, it leaves none: so no call on its way can need it. */
  lemma ReleasedOver(cfg: Config, t: Table, t': Table, c: LoginCounter, x: Touch, earlier: int, at: int)
    requires x.Refunding? || x.Clearing?
    requires SameEntry(t', InTable(cfg, t, c, x, at), c.key) && Spared(t, t', c.key, earlier, at)
    ensures IsLive(t, c.key, earlier) ==> IsLive(t, c.key, at)
  {
  }

  lemma ReleaseTouched(cfg: Config, p: Flight, t: Table, i: nat, at: int)
    requires p.Handing? && DistinctKeys(p.cs) && i < |p.cs|
    ensures SameEntry(Released(t, p.cs, true, p.clearAccount, at), InTable(cfg, t, p.cs[i], TouchOf(p, p.cs[i]), at), p.cs[i].key)
    ensures TouchOf(p, p.cs[i]).Clearing? || TouchOf(p, p.cs[i]).Refunding?
  {
    hide Released, DistinctKeys;
    ReleasedAt(t, p.cs, true, p.clearAccount, at, i);
  }

  lemma ReleaseIsCalm(cfg: Config, w: World, m: Move, i: nat, drift: int)
    requires m.Return? && m.i < |w.pending| && w.pending[m.i].Handing? && Calm(w, m, drift) && i < |w.pending[m.i].cs|
    requires AgreeAt(cfg, State(w.s.local, w.pending[m.i].before), w.pending[m.i].cs[i].key, w.pending[m.i].now, drift)
    ensures var p := w.pending[m.i];
            TouchOf(p, p.cs[i]).Clearing? || (TouchOf(p, p.cs[i]).Refunding? && Refundable(State(w.s.local, p.before), p.cs[i].key, p.now))
  {
    hide AgreeAt, Settled;
    var p := w.pending[m.i];
    AgreeMeans(cfg, State(w.s.local, p.before), p.cs[i].key, p.now, drift);
  }

  /** The touch of a release is right at one reading. */
  lemma ReturnedAgrees(cfg: Config, maxEntries: nat, w: World, w': World, m: Move, i: nat, later: int, drift: int)
    requires Synced(cfg, w, drift) && Moves(cfg, maxEntries, w, w', m) && m.Return? && KeepsOrder(w, m) && Calm(w, m, drift)
    requires i < |w.pending[m.i].cs| && w.pending[m.i].now <= later
    requires Spared(w.s.local, w'.s.local, w.pending[m.i].cs[i].key, later, m.at)
    ensures AgreeAt(cfg, State(w'.s.local, After(w.pending[m.i])), w.pending[m.i].cs[i].key, later, drift)
  {
    hide InStep, After, AgreeAt, InTable, InRedis, TouchOf, Answers, SameEntry, Refundable, Released, Calm;
    var p := w.pending[m.i];
    var c := p.cs[i];
    assert Involves(p, c.key);
    FirstInLine(cfg, w, m.i, c.key, drift);
    RedisTouched(cfg, p, drift, w.s.local, i);
    ReleaseTouched(cfg, p, w.s.local, i, m.at);
    ReleaseIsCalm(cfg, w, m, i, drift);
    ReleasedOver(cfg, w.s.local, w'.s.local, c, TouchOf(p, c), later, m.at);
    ReleaseTouchAgrees(cfg, State(w.s.local, p.before), c, TouchOf(p, c), p.now, m.at, later, drift);
    var t, db := InTable(cfg, w.s.local, c, TouchOf(p, c), m.at), InRedis(cfg, p.before, c.key, TouchOf(p, c), p.now);
    AgreeAtSame(cfg, State(w'.s.local, After(p)), State(t, db), c.key, later, drift);
  }

  lemma ReturnHere(cfg: Config, maxEntries: nat, w: World, w': World, m: Move, k: Key, drift: int)
    requires Synced(cfg, w, drift) && Moves(cfg, maxEntries, w, w', m) && m.Return? && Orderly(w, w', m, drift)
    requires Involves(w.pending[m.i], k)
    ensures InStep(cfg, w', k, drift)
  {
    hide InStep, After, AgreeAt, Released, Calm, Spared, FlightOk;
    var p := w.pending[m.i];
    var i :| 0 <= i < |p.cs| && p.cs[i].key == k;
    SparedLast(w.s.local, w'.s.local, k, m.at, m.at);
    ReturnedAgrees(cfg, maxEntries, w, w', m, i, m.at, drift);
    forall j | 0 <= j < |w'.pending| && Involves(w'.pending[j], k)
      ensures AgreeAt(cfg, State(w'.s.local, After(p)), k, w'.pending[j].now, drift)
    {
      OthersAreLater(cfg, w, m.i, k, j, drift);
      ReturnedAgrees(cfg, maxEntries, w, w', m, i, w'.pending[j].now, drift);
    }
    LandedHere(cfg, w, w', m.i, k, drift);
  }

  lemma ReturnKeepsStep(cfg: Config, maxEntries: nat, w: World, w': World, m: Move, drift: int)
    requires Synced(cfg, w, drift) && Moves(cfg, maxEntries, w, w', m) && m.Return? && Orderly(w, w', m, drift)
    ensures Synced(cfg, w', drift)
  {
    hide InStep, Involves, Framed, Spared, FlightOk, KeepsOrder, Released, Calm;
    forall k ensures InStep(cfg, w', k, drift) {
      if Involves(w.pending[m.i], k) {
        ReturnHere(cfg, maxEntries, w, w', m, k, drift);
      } else {
        ReleaseElse(w.pending[m.i], w.s.local, m.at, k);
        LandedElsewhere(cfg, w, w', m.i, k, m.at, drift);
      }
    }
    QueueShrinks(cfg, w, w', m.i, drift);
  }

  lemma ReleaseElse(p: Flight, t: Table, at: int, k: Key)
    requires p.Handing? && !Involves(p, k)
    ensures Framed(t, Released(t, p.cs, true, p.clearAccount, at), k, at)
  {
    hide Released;
    ReleasedElse(t, p.cs, true, p.clearAccount, at, k);
  }

  lemma SectionKeepsStep(cfg: Config, maxEntries: nat, w: World, w': World, m: Move, drift: int)
    requires Synced(cfg, w, drift) && Moves(cfg, maxEntries, w, w', m) && Orderly(w, w', m, drift)
    requires cfg.window >= MILLISECOND && (m.Ask? ==> Within(cfg, m.now, drift))
    ensures Synced(cfg, w', drift)
  {
    hide Synced, Moves, KeepsOrder, CutsNothingShort, Calm, Within;
    match m
    case Ask(_, _, _) => AskKeepsStep(cfg, maxEntries, w, w', m, drift);
    case Mirror(_, _, _) => MirrorKeepsStep(cfg, maxEntries, w, w', m, drift);
    case Hand(_, _, _) => HandKeepsStep(cfg, maxEntries, w, w', m, drift);
    case Return(_, _) => ReturnKeepsStep(cfg, maxEntries, w, w', m, drift);
  }

  // ---------------------------------------------------------------------------------------------
  // Whole runs
  // ---------------------------------------------------------------------------------------------

  lemma {:induction false} RunKeepsStep(cfg: Config, maxEntries: nat, worlds: seq<World>, moves: seq<Move>, drift: int)
    requires OverlapRun(cfg, maxEntries, worlds, moves) && cfg.window >= MILLISECOND
    requires forall i | 0 <= i < |moves| :: Orderly(worlds[i], worlds[i + 1], moves[i], drift)
    requires forall i | 0 <= i < |moves| && moves[i].Ask? :: Within(cfg, moves[i].now, drift)
    ensures Synced(cfg, worlds[|moves|], drift)
    decreases |moves|
  {
    hide Synced, Moves, Orderly, Within;
    if moves == [] {
      EmptyInStep(cfg, worlds[0], drift);
    } else {
      var n := |moves| - 1;
      RunKeepsStep(cfg, maxEntries, worlds[..n + 1], moves[..n], drift);
      SectionKeepsStep(cfg, maxEntries, worlds[n], worlds[n + 1], moves[n], drift);
    }
  }

  lemma EmptyInStep(cfg: Config, w: World, drift: int)
    requires w.s == State(map[], map[]) && w.pending == []
    ensures Synced(cfg, w, drift)
  {
  }

  /**
   * Calls may overlap in any way as long as those that share a counter reach the table in the order in which they
   * reached Redis: then a counter that no call is on its way with is the same on both sides.
   */
  lemma OverlapsAgree(cfg: Config, maxEntries: nat, worlds: seq<World>, moves: seq<Move>, drift: int)
    requires OverlapRun(cfg, maxEntries, worlds, moves) && cfg.window >= MILLISECOND
    requires forall i | 0 <= i < |moves| :: Orderly(worlds[i], worlds[i + 1], moves[i], drift)
    requires forall i | 0 <= i < |moves| && moves[i].Ask? :: Within(cfg, moves[i].now, drift)
    ensures var w := worlds[|moves|];
            && (forall k | (forall p | p in w.pending :: !Involves(p, k)) :: AgreeAt(cfg, w.s, k, w.clock, drift))
            && (w.pending == [] ==> Agree(cfg, w.s, w.clock, drift))
  {
    hide Moves, Orderly, Within, Involves, AgreeAt;
    var w := worlds[|moves|];
    RunKeepsStep(cfg, maxEntries, worlds, moves, drift);
    forall k | forall p | p in w.pending :: !Involves(p, k) ensures AgreeAt(cfg, w.s, k, w.clock, drift) {
      assert InStep(cfg, w, k, drift);
      NothingOnItsWay(w.pending, w.s.db, k);
      assert State(w.s.local, w.s.db) == w.s;
    }
  }

  // Calls that do not overlap are the steps of Simulation.

  /** The two sections of an attempt, with nothing in between. */
  lemma AttemptIsTwoMoves(cfg: Config, maxEntries: nat, s: State, s': State, account: string, ip: string, now: int, a: Attempt, w: Course)
    requires CountersFor(cfg, account, ip) != [] && w.answered && Acquired(cfg, maxEntries, s, s', account, ip, now, a, w)
    ensures var cs := CountersFor(cfg, account, ip);
            var r := AskedReply(cfg, s.db, cs, now);
            var mid := World(State(w.mid, r.db), [Asked(cs, now, s.db, r)], now);
            && Moves(cfg, maxEntries, World(s, [], now), mid, Ask(account, ip, now))
            && Moves(cfg, maxEntries, mid, World(s', [], now), Mirror(0, w.dropped, w.room))
            && KeepsOrder(mid, Mirror(0, w.dropped, w.room)) && a == Replied(r, cs)
  {
    hide AskedReply, Repeated, SameLive, Holds;
    assert [Asked(CountersFor(cfg, account, ip), now, s.db, AskedReply(cfg, s.db, CountersFor(cfg, account, ip), now))][1..] == [];
  }

  /** The two sections of a release, with nothing in between. */
  lemma ReleaseIsTwoMoves(cfg: Config, maxEntries: nat, s: State, a: Attempt, clearAccount: bool, now: int)
    requires a.allowed && a.shared && a.counters != [] && DistinctKeys(a.counters)
    ensures var p := Handing(a.counters, clearAccount, now, s.db);
            var mid := World(State(s.local, After(p)), [p], now);
            && Moves(cfg, maxEntries, World(s, [], now), mid, Hand(a.counters, clearAccount, now))
            && Moves(cfg, maxEntries, mid, World(Handed(s, a, clearAccount, true, now), [], now), Return(0, now))
            && KeepsOrder(mid, Return(0, now))
  {
    hide Released, ReleaseAll, ReleaseModes, DistinctKeys;
    assert [Handing(a.counters, clearAccount, now, s.db)][1..] == [];
  }

  // ---------------------------------------------------------------------------------------------
  // A section that comes late
  // ---------------------------------------------------------------------------------------------

  // Whatever the table and Redis have become in the meantime, the late section leaves them agreeing
  // on a counter exactly when Redis holds what the section writes.

  /** A late refusal marks the counter: Redis has to hold it at its limit still, with the same end. */
  lemma LateRefusalExactly(cfg: Config, maxEntries: nat, t: Table, t': Table, c: LoginCounter, ttl: int, now: int, dropped: nat, room: Table,
                           db: Db, drift: int)
    requires c.limit == Limit(cfg, c.key) > 0 && ttl > 0 && !(IsLive(t, c.key, now) && t[c.key].unshared > 0)
    requires MarkedExhausted(t, t', c, ttl * MILLISECOND, now, maxEntries, dropped, room)
    ensures AgreeAt(cfg, State(t', db), c.key, now, drift) <==>
              && c.key in db && db[c.key].count == c.limit && db[c.key].expires.Some?
              && 0 <= now + ttl * MILLISECOND - db[c.key].expires.value * MILLISECOND <= drift
  {
    hide RoomMade;
  }

  /** A late charge counts on what the table has become: Redis has to hold that count, with the same end. */
  lemma LateChargeExactly(cfg: Config, maxEntries: nat, t: Table, t': Table, cs: seq<LoginCounter>, now: int, dropped: nat, room: Table, i: nat,
                          db: Db, drift: int)
    requires DistinctKeys(cs) && i < |cs| && cfg.window > 0
    requires var start := Purged(t, KeysOf(cs), now);
             RoomMade(start, room, |KeysOf(cs) - start.Keys|, KeysOf(cs), maxEntries, now, dropped)
    requires t' == Charged(room, cs, cfg.window, now, false)
    ensures AgreeAt(cfg, State(t', db), cs[i].key, now, drift) <==>
              cs[i].key in db && SameCounter(cfg, cs[i].key, OneMore(cfg, t, cs[i], now), db[cs[i].key], drift)
  {
    hide RoomMade, Charged, KeysOf, DistinctKeys, Purged, SameCounter;
    ChargedIs(cfg, maxEntries, t, t', cs, now, dropped, room, i);
  }

  /** A late release takes away what the table has become: Redis has to hold one less, or no such counter. */
  lemma LateReleaseExactly(cfg: Config, t: Table, cs: seq<LoginCounter>, clearAccount: bool, at: int, i: nat, db: Db, drift: int)
    requires DistinctKeys(cs) && i < |cs|
    ensures var k := cs[i].key;
            AgreeAt(cfg, State(Released(t, cs, true, clearAccount, at), db), k, at, drift) <==>
              if !Cleared(cs[i], clearAccount) && IsLive(t, k, at) && t[k].count > 1
              then k in db && SameCounter(cfg, k, t[k].(count := t[k].count - 1), db[k], drift)
              else !Present(db, k, Millis(at))
  {
    hide Released, DistinctKeys;
    ReleasedAt(t, cs, true, clearAccount, at, i);
    var k, t' := cs[i].key, ReleasedOne(t, cs[i], true, clearAccount, at);
    SameSelf(db, k);
    AgreeAtSame(cfg, State(Released(t, cs, true, clearAccount, at), db), State(t', db), k, at, drift);
  }

  lemma {:induction false} ClearedLocally(t: Table, cs: seq<LoginCounter>, shared: bool, now: int, i: nat)
    requires i < |cs| && cs[i].key.Scope() != ScopeIP
    ensures cs[i].key !in Released(t, cs, shared, true, now)
    decreases |cs|
  {
    var t1 := ReleasedOne(t, cs[0], shared, true, now);
    if i == 0 {
      ReleasedKeys(t1, cs[1..], shared, true, now);
    } else {
      ClearedLocally(t1, cs[1..], shared, now, i - 1);
    }
  }

  lemma {:induction false} ReleaseAllKeys(db: Db, keys: seq<(Key, Mode)>, now: int)
    ensures ReleaseAll(db, keys, now).Keys <= db.Keys
    decreases |keys|
  {
    if keys != [] {
      ReleaseAllKeys(ReleaseKey(db, keys[0].0, keys[0].1, now), keys[1..], now);
    }
  }

  lemma {:induction false} ClearedInRedis(db: Db, cs: seq<LoginCounter>, shared: bool, now: int, i: nat)
    requires i < |cs| && cs[i].key.Scope() != ScopeIP
    ensures cs[i].key !in ReleaseAll(db, ReleaseModes(cs, shared, true), now)
    decreases |cs|
  {
    var modes := ReleaseModes(cs, shared, true);
    var first := if cs[0].key.Scope() != ScopeIP then [(cs[0].key, Clear)] else if shared then [(cs[0].key, Refund)] else [];
    assert modes == first + ReleaseModes(cs[1..], shared, true);
    if first == [] {
      assert modes == ReleaseModes(cs[1..], shared, true);
      ClearedInRedis(db, cs[1..], shared, now, i - 1);
    } else {
      var db1 := ReleaseKey(db, modes[0].0, modes[0].1, now);
      assert modes[1..] == ReleaseModes(cs[1..], shared, true);
      if i == 0 {
        ReleaseAllKeys(db1, modes[1..], now);
      } else {
        ClearedInRedis(db1, cs[1..], shared, now, i - 1);
      }
    }
  }

  /** A refusal that is repeated after another attempt's success locks a counter that Redis has cleared. */
  lemma OverlapDiffers(cfg: Config, maxEntries: nat, s: State, cs: seq<LoginCounter>, now: int, drift: int,
                       other: Attempt, success: int, t': Table, dropped: nat, room: Table)
    requires Agree(cfg, s, now, drift) && Limits(cfg, cs) && AskedReply(cfg, s.db, cs, now).index > 0
    requires other.allowed && other.shared && cs[AskedReply(cfg, s.db, cs, now).index - 1] in other.counters
    requires cs[AskedReply(cfg, s.db, cs, now).index - 1].key.Scope() != ScopeIP
    requires var r := AskedReply(cfg, s.db, cs, now);
             MarkedExhausted(Handed(s, other, true, true, success).local, t', cs[r.index - 1], r.ttl * MILLISECOND, now, maxEntries, dropped, room)
    ensures var k := cs[AskedReply(cfg, s.db, cs, now).index - 1].key;
            IsLive(t', k, now) && !AgreeAt(cfg, State(t', Handed(s, other, true, true, success).db), k, now, drift)
  {
    hide IncrAll, Released, ReleaseAll, Limits, MarkedExhausted;
    var r := AskedReply(cfg, s.db, cs, now);
    var c := cs[r.index - 1];
    assert AgreeAt(cfg, s, c.key, now, drift);
    var i :| 0 <= i < |other.counters| && other.counters[i] == c;
    ClearedLocally(s.local, other.counters, true, success, i);
    ClearedInRedis(s.db, other.counters, true, Millis(success), i);
    LimitAt(cfg, cs, r.index - 1);
    var s1 := Handed(s, other, true, true, success);
    MarkWithoutRedis(cfg, s1, t', c, r.ttl * MILLISECOND, now, drift, maxEntries, dropped, room);
  }

  lemma MarkWithoutRedis(cfg: Config, s: State, t': Table, c: LoginCounter, remaining: int, now: int, drift: int,
                         maxEntries: nat, dropped: nat, room: Table)
    requires c.key !in s.local && c.key !in s.db && remaining > 0
    requires MarkedExhausted(s.local, t', c, remaining, now, maxEntries, dropped, room)
    ensures IsLive(t', c.key, now) && !AgreeAt(cfg, State(t', s.db), c.key, now, drift)
  {
    hide RoomMade;
  }

  // ---------------------------------------------------------------------------------------------
  // Two calls that reach the table in the wrong order
  // ---------------------------------------------------------------------------------------------

  // The call p asks Redis first; q does all it does before p reaches the table. Both fall into one
  // window of the counter c. An attempt enters the table with its first reading, a release with a new one.

  function Swapped(cfg: Config, s: State, c: LoginCounter, p: Touch, q: Touch, first: int, second: int): State {
    var reading := if p.Charging? || p.Marking? then first else second;
    State(InTable(cfg, InTable(cfg, s.local, c, q, second), c, p, reading),
          InRedis(cfg, InRedis(cfg, s.db, c.key, p, first), c.key, q, second))
  }

  ghost predicate OneWindow(cfg: Config, s: State, k: Key, first: int, second: int) {
    && first <= second && Millis(second) < Millis(first) + Millis(cfg.window)
    && Settled(s, k, first) && (IsLive(s.local, k, first) ==> Present(s.db, k, Millis(second)))
  }

  /** Two ends that are apart by no more than the drift. */
  predicate SameEnd(inTable: int, inRedis: int, drift: int) {
    0 <= inTable - inRedis * MILLISECOND <= drift
  }

  /** n is the count before the two calls, in both places. */
  predicate Harmless(cfg: Config, s: State, c: LoginCounter, p: Touch, q: Touch, first: int, second: int, drift: int) {
    var n := Get(s.db, c.key, Millis(first));
    var end := if c.key in s.local then s.local[c.key].expires else 0;
    var endInRedis := if c.key in s.db && s.db[c.key].expires.Some? then s.db[c.key].expires.value else 0;
    match (p, q)
    // Two charges do not care, except which of them opens the window.
    case (Charging, Charging) => n > 0 || SameEnd(second + cfg.window, Millis(first) + Millis(cfg.window), drift)
    // A charge and a refund do not either, as long as the counter outlives the refund.
    case (Charging, Refunding) => n > 1 || (n == 1 && SameEnd(first + cfg.window, endInRedis, drift))
    case (Refunding, Charging) => n > 1 || (n == 1 && SameEnd(end, Millis(second) + Millis(cfg.window), drift))
    // A late charge is one too many after a refusal, and the only one after a success.
    case (Charging, Marking(_)) => false
    case (Charging, Clearing) => false
    // A late refusal knows nothing of the slot that was given back.
    case (Marking(_), Refunding) => false
    case (Marking(_), Clearing) => false
    // A late success takes with it what came after it.
    case (Clearing, Charging) => false
    // Refusals do not disturb each other, and neither do releases.
    case (Marking(_), Marking(_)) => true
    case (Refunding, _) => true
    case (Clearing, _) => true
    case (Marking(_), Charging) => true
  }

  /** For two calls of any kind: which may swap. Redis refuses no attempt after it gave a slot back, and admits none when full. */
  lemma SwapExactly(cfg: Config, s: State, c: LoginCounter, p: Touch, q: Touch, first: int, second: int, drift: int)
    requires AgreeAt(cfg, s, c.key, first, drift) && c.limit == Limit(cfg, c.key) > 0 && cfg.window >= MILLISECOND
    requires Within(cfg, first, drift) && Within(cfg, second, drift) && OneWindow(cfg, s, c.key, first, second)
    requires Answers(cfg, s.db, c, p, first) && Answers(cfg, InRedis(cfg, s.db, c.key, p, first), c, q, second)
    ensures AgreeAt(cfg, Swapped(cfg, s, c, p, q, first, second), c.key, second, drift) <==> Harmless(cfg, s, c, p, q, first, second, drift)
  {
    match p
    case Charging => SwapCharge(cfg, s, c, q, first, second, drift);
    case Marking(ttl) => SwapMark(cfg, s, c, ttl, q, first, second, drift);
    case Refunding => SwapRefund(cfg, s, c, q, first, second, drift);
    case Clearing => SwapClear(cfg, s, c, q, first, second, drift);
  }

  lemma SwapCharge(cfg: Config, s: State, c: LoginCounter, q: Touch, first: int, second: int, drift: int)
    requires AgreeAt(cfg, s, c.key, first, drift) && c.limit == Limit(cfg, c.key) > 0 && cfg.window >= MILLISECOND
    requires Within(cfg, first, drift) && Within(cfg, second, drift) && OneWindow(cfg, s, c.key, first, second)
    requires Answers(cfg, s.db, c, Charging, first) && Answers(cfg, InRedis(cfg, s.db, c.key, Charging, first), c, q, second)
    ensures AgreeAt(cfg, Swapped(cfg, s, c, Charging, q, first, second), c.key, second, drift)
        <==> Harmless(cfg, s, c, Charging, q, first, second, drift)
  {
  }

  lemma SwapMark(cfg: Config, s: State, c: LoginCounter, ttl: int, q: Touch, first: int, second: int, drift: int)
    requires AgreeAt(cfg, s, c.key, first, drift) && c.limit == Limit(cfg, c.key) > 0 && cfg.window >= MILLISECOND
    requires Within(cfg, first, drift) && Within(cfg, second, drift) && OneWindow(cfg, s, c.key, first, second)
    requires Answers(cfg, s.db, c, Marking(ttl), first) && Answers(cfg, InRedis(cfg, s.db, c.key, Marking(ttl), first), c, q, second)
    ensures AgreeAt(cfg, Swapped(cfg, s, c, Marking(ttl), q, first, second), c.key, second, drift)
        <==> Harmless(cfg, s, c, Marking(ttl), q, first, second, drift)
  {
  }

  lemma SwapRefund(cfg: Config, s: State, c: LoginCounter, q: Touch, first: int, second: int, drift: int)
    requires AgreeAt(cfg, s, c.key, first, drift) && c.limit == Limit(cfg, c.key) > 0 && cfg.window >= MILLISECOND
    requires Within(cfg, first, drift) && Within(cfg, second, drift) && OneWindow(cfg, s, c.key, first, second)
    requires Answers(cfg, InRedis(cfg, s.db, c.key, Refunding, first), c, q, second)
    ensures AgreeAt(cfg, Swapped(cfg, s, c, Refunding, q, first, second), c.key, second, drift)
        <==> Harmless(cfg, s, c, Refunding, q, first, second, drift)
  {
  }

  lemma SwapClear(cfg: Config, s: State, c: LoginCounter, q: Touch, first: int, second: int, drift: int)
    requires AgreeAt(cfg, s, c.key, first, drift) && c.limit == Limit(cfg, c.key) > 0 && cfg.window >= MILLISECOND
    requires Within(cfg, first, drift) && Within(cfg, second, drift) && OneWindow(cfg, s, c.key, first, second)
    requires Answers(cfg, InRedis(cfg, s.db, c.key, Clearing, first), c, q, second)
    ensures AgreeAt(cfg, Swapped(cfg, s, c, Clearing, q, first, second), c.key, second, drift)
        <==> Harmless(cfg, s, c, Clearing, q, first, second, drift)
  {
  }

  /** The table counts less than Redis: it would let through what Redis refuses. */
  predicate CountsLess(s: State, k: Key, now: int) {
    Present(s.db, k, Millis(now)) && (!IsLive(s.local, k, now) || s.local[k].count < s.db[k].count)
  }

  /** That happens exactly when a release overtaken by an attempt takes the attempt's charge with it. */
  lemma CountsLessExactly(cfg: Config, s: State, c: LoginCounter, p: Touch, q: Touch, first: int, second: int, drift: int)
    requires AgreeAt(cfg, s, c.key, first, drift) && c.limit == Limit(cfg, c.key) > 0 && cfg.window >= MILLISECOND
    requires OneWindow(cfg, s, c.key, first, second)
    requires Answers(cfg, s.db, c, p, first) && Answers(cfg, InRedis(cfg, s.db, c.key, p, first), c, q, second)
    ensures CountsLess(Swapped(cfg, s, c, p, q, first, second), c.key, second) <==>
              q.Charging? && (p.Clearing? || (p.Refunding? && Get(s.db, c.key, Millis(first)) == 0))
  {
    match p
    case Charging => ChargeCountsNoLess(cfg, s, c, q, first, second, drift);
    case Marking(ttl) => MarkCountsNoLess(cfg, s, c, ttl, q, first, second, drift);
    case Refunding =>
    case Clearing =>
  }

  lemma ChargeCountsNoLess(cfg: Config, s: State, c: LoginCounter, q: Touch, first: int, second: int, drift: int)
    requires AgreeAt(cfg, s, c.key, first, drift) && c.limit == Limit(cfg, c.key) > 0 && cfg.window >= MILLISECOND
    requires OneWindow(cfg, s, c.key, first, second)
    requires Answers(cfg, s.db, c, Charging, first) && Answers(cfg, InRedis(cfg, s.db, c.key, Charging, first), c, q, second)
    ensures !CountsLess(Swapped(cfg, s, c, Charging, q, first, second), c.key, second)
  {
  }

  lemma MarkCountsNoLess(cfg: Config, s: State, c: LoginCounter, ttl: int, q: Touch, first: int, second: int, drift: int)
    requires AgreeAt(cfg, s, c.key, first, drift) && c.limit == Limit(cfg, c.key) > 0 && cfg.window >= MILLISECOND
    requires OneWindow(cfg, s, c.key, first, second)
    requires Answers(cfg, s.db, c, Marking(ttl), first) && Answers(cfg, InRedis(cfg, s.db, c.key, Marking(ttl), first), c, q, second)
    ensures !CountsLess(Swapped(cfg, s, c, Marking(ttl), q, first, second), c.key, second)
  {
  }

  // ---------------------------------------------------------------------------------------------
  // Two runs, with a window of one second and one attempt allowed
  // ---------------------------------------------------------------------------------------------

  function OneCounter(account: string, ip: string): LoginCounter {
    LoginCounter(UserIPKey(account, ip), 1)
  }

  /** One attempt in Redis, and n attempts in the table. */
  function OneInRedis(c: LoginCounter): Db {
    map[c.key := RedisEntry(1, Some(1_000))]
  }

  function InTheTable(c: LoginCounter, n: nat): Table {
    map[c.key := Counter(n, 0, 1, 1_000_000_000)]
  }

  // The steps that the two runs are made of, all at time 0.

  lemma TheCounters(account: string, ip: string)
    ensures CountersFor(ONE_SECOND, account, ip) == [OneCounter(account, ip)]
  {
  }

  lemma AskWhenEmpty(account: string, ip: string, maxEntries: nat, t: Table, pending: seq<Flight>)
    requires !Holds(t, [OneCounter(account, ip)], 0)
    ensures var c := OneCounter(account, ip);
            var p := Asked([c], 0, map[], Reply(OneInRedis(c), 0, 0));
            Moves(ONE_SECOND, maxEntries, World(State(t, map[]), pending, 0), World(State(t, OneInRedis(c)), pending + [p], 0), Ask(account, ip, 0))
  {
    hide IncrAll, FirstFull, SameLive;
    var c := OneCounter(account, ip);
    TheCounters(account, ip);
    NothingFull([c], 0);
    OneIncr(c);
    SameLiveSelf(t, 0);
  }

  lemma AskWhenFull(account: string, ip: string, maxEntries: nat, t: Table, pending: seq<Flight>)
    requires !Holds(t, [OneCounter(account, ip)], 0)
    ensures var c := OneCounter(account, ip);
            var p := Asked([c], 0, OneInRedis(c), Reply(OneInRedis(c), 1, 1_000));
            Moves(ONE_SECOND, maxEntries, World(State(t, OneInRedis(c)), pending, 0), World(State(t, OneInRedis(c)), pending + [p], 0), Ask(account, ip, 0))
  {
    hide SameLive, Holds;
    var c := OneCounter(account, ip);
    TheCounters(account, ip);
    assert FirstFull(OneInRedis(c), [c], 0) == 0;
    SameLiveSelf(t, 0);
  }

  lemma NoneHeld(c: LoginCounter, n: nat)
    ensures !Holds(InTheTable(c, n), [c], 0) && !Holds(map[], [c], 0)
  {
  }

  lemma FirstMirror(c: LoginCounter, maxEntries: nat)
    requires c.limit == 1 && maxEntries > 0
    ensures Repeated(ONE_SECOND, maxEntries, Reply(OneInRedis(c), 0, 0), map[], InTheTable(c, 1), [c], 0, 0, map[])
  {
    hide RoomMade, Charged;
    OneKey(c);
    EmptyRoom(c.key, maxEntries);
    OneCharge(c);
  }

  lemma {:induction false} SecondMirror(c: LoginCounter, maxEntries: nat)
    requires c.limit == 1 && maxEntries > 0
    ensures Repeated(ONE_SECOND, maxEntries, Reply(OneInRedis(c), 0, 0), InTheTable(c, 1), InTheTable(c, 2), [c], 0, 0, InTheTable(c, 1))
  {
    var t := InTheTable(c, 1);
    OneKey(c);
    assert Purged(t, {c.key}, 0) == t;
    assert {c.key} - t.Keys == {};
    assert RoomMade(t, t, 0, {c.key}, maxEntries, 0, 0);
    assert [c][1..] == [];
  }

  lemma LateMark(c: LoginCounter, maxEntries: nat)
    requires c.limit == 1 && maxEntries > 0
    ensures Repeated(ONE_SECOND, maxEntries, Reply(OneInRedis(c), 1, 1_000), map[], InTheTable(c, 1), [c], 0, 0, map[])
  {
    hide RoomMade;
    EmptyRoom(c.key, maxEntries);
    assert {c.key} - Purged(map[], {c.key}, 0).Keys == {c.key};
  }

  lemma SuccessClears(account: string, ip: string)
    ensures var c := OneCounter(account, ip);
            && (forall n: nat :: Released(InTheTable(c, n), [c], true, true, 0) == map[])
            && ReleaseAll(OneInRedis(c), ReleaseModes([c], true, true), 0) == map[]
  {
    var c := OneCounter(account, ip);
    assert [c][1..] == [];
    assert ReleaseModes([c], true, true) == [(c.key, Clear)];
    assert [(c.key, Clear)][1..] == [];
  }

  /** B holds the slot. Its success clears Redis, A is allowed there and mirrored, and only then B clears the table. */
  function LateRelease(account: string, ip: string): (r: (seq<World>, seq<Move>)) {
    var c := OneCounter(account, ip);
    var one := OneInRedis(c);
    var allowed := Asked([c], 0, map[], Reply(one, 0, 0));
    var success := Handing([c], true, 0, one);
    ([World(State(map[], map[]), [], 0),
      World(State(map[], one), [allowed], 0),
      World(State(InTheTable(c, 1), one), [], 0),
      World(State(InTheTable(c, 1), map[]), [success], 0),
      World(State(InTheTable(c, 1), one), [success, allowed], 0),
      World(State(InTheTable(c, 2), one), [success], 0),
      World(State(map[], one), [], 0)],
     [Ask(account, ip, 0), Mirror(0, 0, map[]), Hand([c], true, 0), Ask(account, ip, 0), Mirror(1, 0, InTheTable(c, 1)), Return(0, 0)])
  }

  /** A is refused. B, which holds the slot, succeeds and clears both sides, and only then A marks the counter. */
  function LateRefusal(account: string, ip: string): (r: (seq<World>, seq<Move>)) {
    var c := OneCounter(account, ip);
    var one := OneInRedis(c);
    var allowed := Asked([c], 0, map[], Reply(one, 0, 0));
    var refused := Asked([c], 0, one, Reply(one, 1, 1_000));
    var success := Handing([c], true, 0, one);
    ([World(State(map[], map[]), [], 0),
      World(State(map[], one), [allowed], 0),
      World(State(InTheTable(c, 1), one), [], 0),
      World(State(InTheTable(c, 1), one), [refused], 0),
      World(State(InTheTable(c, 1), map[]), [refused, success], 0),
      World(State(map[], map[]), [refused], 0),
      World(State(InTheTable(c, 1), map[]), [], 0)],
     [Ask(account, ip, 0), Mirror(0, 0, map[]), Ask(account, ip, 0), Hand([c], true, 0), Return(1, 0), Mirror(0, 0, map[])])
  }

  /** Nothing is on its way any more, and a fallback allows what Redis refuses. */
  lemma LateReleaseLetsThrough(account: string, ip: string, maxEntries: nat, now: int)
    requires maxEntries > 0 && 0 <= now < 1_000 * MILLISECOND
    ensures var (worlds, moves) := LateRelease(account, ip);
            var cs := CountersFor(ONE_SECOND, account, ip);
            && OverlapRun(ONE_SECOND, maxEntries, worlds, moves) && worlds[6].pending == []
            && FirstExhausted(worlds[6].s.local, cs, now) == -1
            && AskedReply(ONE_SECOND, worlds[6].s.db, cs, now).index == 1
  {
    hide Moves;
    LateReleaseRuns(account, ip, maxEntries);
    TheCounters(account, ip);
    assert FirstFull(OneInRedis(OneCounter(account, ip)), [OneCounter(account, ip)], Millis(now)) == 0;
  }

  lemma LateReleaseRuns(account: string, ip: string, maxEntries: nat)
    requires maxEntries > 0
    ensures var (worlds, moves) := LateRelease(account, ip); OverlapRun(ONE_SECOND, maxEntries, worlds, moves)
  {
    hide Moves, OneInRedis, InTheTable, OneCounter;
    var c := OneCounter(account, ip);
    var one := OneInRedis(c);
    var success := Handing([c], true, 0, one);
    SlotTaken(account, ip, maxEntries);
    SuccessInRedis(account, ip, maxEntries, []);
    assert [] + [success] == [success];
    NoneHeld(c, 1);
    AskWhenEmpty(account, ip, maxEntries, InTheTable(c, 1), [success]);
    assert [success] + [Asked([c], 0, map[], Reply(one, 0, 0))] == [success, Asked([c], 0, map[], Reply(one, 0, 0))];
    MirroredTwice(account, ip, maxEntries);
    SuccessInTable(account, ip, maxEntries, 2, one, []);
  }

  /** B takes the slot, on both sides. */
  lemma SlotTaken(account: string, ip: string, maxEntries: nat)
    requires maxEntries > 0
    ensures var c := OneCounter(account, ip);
            var w := World(State(map[], OneInRedis(c)), [Asked([c], 0, map[], Reply(OneInRedis(c), 0, 0))], 0);
            && Moves(ONE_SECOND, maxEntries, World(State(map[], map[]), [], 0), w, Ask(account, ip, 0))
            && Moves(ONE_SECOND, maxEntries, w, World(State(InTheTable(c, 1), OneInRedis(c)), [], 0), Mirror(0, 0, map[]))
  {
    hide Moves, Repeated;
    var c := OneCounter(account, ip);
    var p := Asked([c], 0, map[], Reply(OneInRedis(c), 0, 0));
    NoneHeld(c, 1);
    AskWhenEmpty(account, ip, maxEntries, map[], []);
    assert [] + [p] == [p];
    FirstMirror(c, maxEntries);
    assert [p][1..] == [];
    MirrorMoves(ONE_SECOND, World(State(map[], OneInRedis(c)), [p], 0), World(State(InTheTable(c, 1), OneInRedis(c)), [], 0), maxEntries, Mirror(0, 0, map[]));
  }

  lemma SuccessInRedis(account: string, ip: string, maxEntries: nat, pending: seq<Flight>)
    ensures var c := OneCounter(account, ip);
            Moves(ONE_SECOND, maxEntries, World(State(InTheTable(c, 1), OneInRedis(c)), pending, 0),
                  World(State(InTheTable(c, 1), map[]), pending + [Handing([c], true, 0, OneInRedis(c))], 0), Hand([c], true, 0))
  {
    hide Moves, Released, ReleaseAll, ReleaseModes;
    var c := OneCounter(account, ip);
    SuccessClears(account, ip);
    HandMoves(World(State(InTheTable(c, 1), OneInRedis(c)), pending, 0),
              World(State(InTheTable(c, 1), map[]), pending + [Handing([c], true, 0, OneInRedis(c))], 0), maxEntries, Hand([c], true, 0));
  }

  lemma SuccessInTable(account: string, ip: string, maxEntries: nat, n: nat, db: Db, pending: seq<Flight>)
    ensures var c := OneCounter(account, ip);
            var success := Handing([c], true, 0, OneInRedis(c));
            Moves(ONE_SECOND, maxEntries, World(State(InTheTable(c, n), db), pending + [success], 0),
                  World(State(map[], db), pending, 0), Return(|pending|, 0))
  {
    hide Moves, Released, ReleaseAll, ReleaseModes;
    var c := OneCounter(account, ip);
    var queue := pending + [Handing([c], true, 0, OneInRedis(c))];
    SuccessClears(account, ip);
    assert Without(queue, |pending|) == pending;
    ReturnMoves(World(State(InTheTable(c, n), db), queue, 0), World(State(map[], db), pending, 0), maxEntries, Return(|pending|, 0));
  }

  lemma MirroredTwice(account: string, ip: string, maxEntries: nat)
    requires maxEntries > 0
    ensures var c := OneCounter(account, ip);
            var success, allowed := Handing([c], true, 0, OneInRedis(c)), Asked([c], 0, map[], Reply(OneInRedis(c), 0, 0));
            Moves(ONE_SECOND, maxEntries, World(State(InTheTable(c, 1), OneInRedis(c)), [success, allowed], 0),
                  World(State(InTheTable(c, 2), OneInRedis(c)), [success], 0), Mirror(1, 0, InTheTable(c, 1)))
  {
    hide Moves, Repeated;
    var c := OneCounter(account, ip);
    var success, allowed := Handing([c], true, 0, OneInRedis(c)), Asked([c], 0, map[], Reply(OneInRedis(c), 0, 0));
    SecondMirror(c, maxEntries);
    assert Without([success, allowed], 1) == [success];
    MirrorMoves(ONE_SECOND, World(State(InTheTable(c, 1), OneInRedis(c)), [success, allowed], 0), World(State(InTheTable(c, 2), OneInRedis(c)), [success], 0),
                maxEntries, Mirror(1, 0, InTheTable(c, 1)));
  }

  lemma MarkedLate(account: string, ip: string, maxEntries: nat)
    requires maxEntries > 0
    ensures var c := OneCounter(account, ip);
            var refused := Asked([c], 0, OneInRedis(c), Reply(OneInRedis(c), 1, 1_000));
            Moves(ONE_SECOND, maxEntries, World(State(map[], map[]), [refused], 0), World(State(InTheTable(c, 1), map[]), [], 0), Mirror(0, 0, map[]))
  {
    hide Moves, Repeated;
    var c := OneCounter(account, ip);
    var refused := Asked([c], 0, OneInRedis(c), Reply(OneInRedis(c), 1, 1_000));
    LateMark(c, maxEntries);
    assert Without([refused], 0) == [];
    MirrorMoves(ONE_SECOND, World(State(map[], map[]), [refused], 0), World(State(InTheTable(c, 1), map[]), [], 0), maxEntries, Mirror(0, 0, map[]));
  }

  lemma MirrorMoves(cfg: Config, w: World, w': World, maxEntries: nat, m: Move)
    requires m.Mirror? && m.i < |w.pending| && w.pending[m.i].Asked? && w.pending[m.i].reply.index <= |w.pending[m.i].cs|
    requires var p := w.pending[m.i];
             Repeated(cfg, maxEntries, p.reply, w.s.local, w'.s.local, p.cs, p.now, m.dropped, m.room)
    requires w'.pending == Without(w.pending, m.i) && w'.s.db == w.s.db && w'.clock == w.clock
    ensures Moves(cfg, maxEntries, w, w', m)
  {
    hide Repeated;
  }

  lemma HandMoves(w: World, w': World, maxEntries: nat, m: Move)
    requires m.Hand? && m.cs != [] && DistinctKeys(m.cs) && w.clock <= m.now
    requires w' == World(State(w.s.local, ReleaseAll(w.s.db, ReleaseModes(m.cs, true, m.clearAccount), Millis(m.now))),
                         w.pending + [Handing(m.cs, m.clearAccount, m.now, w.s.db)], m.now)
    ensures Moves(ONE_SECOND, maxEntries, w, w', m)
  {
    hide ReleaseAll, ReleaseModes;
  }

  lemma ReturnMoves(w: World, w': World, maxEntries: nat, m: Move)
    requires m.Return? && m.i < |w.pending| && w.pending[m.i].Handing? && w.clock <= m.at
    requires var p := w.pending[m.i]; w'.s.local == Released(w.s.local, p.cs, true, p.clearAccount, m.at)
    requires w'.pending == Without(w.pending, m.i) && w'.s.db == w.s.db && w'.clock == m.at
    ensures Moves(ONE_SECOND, maxEntries, w, w', m)
  {
    hide Released;
  }

  /** Nothing is on its way any more, and a fallback refuses what Redis allows. */
  lemma LateRefusalLocksOut(account: string, ip: string, maxEntries: nat, now: int)
    requires maxEntries > 0 && 0 <= now < 1_000 * MILLISECOND
    ensures var (worlds, moves) := LateRefusal(account, ip);
            var cs := CountersFor(ONE_SECOND, account, ip);
            && OverlapRun(ONE_SECOND, maxEntries, worlds, moves) && worlds[6].pending == []
            && FirstExhausted(worlds[6].s.local, cs, now) == 0
            && AskedReply(ONE_SECOND, worlds[6].s.db, cs, now).index == 0
  {
    hide Moves;
    LateRefusalRuns(account, ip, maxEntries);
    TheCounters(account, ip);
    NothingFull([OneCounter(account, ip)], Millis(now));
  }

  lemma LateRefusalRuns(account: string, ip: string, maxEntries: nat)
    requires maxEntries > 0
    ensures var (worlds, moves) := LateRefusal(account, ip); OverlapRun(ONE_SECOND, maxEntries, worlds, moves)
  {
    hide Moves, OneInRedis, InTheTable, OneCounter;
    var c := OneCounter(account, ip);
    var one := OneInRedis(c);
    var refused, success := Asked([c], 0, one, Reply(one, 1, 1_000)), Handing([c], true, 0, one);
    SlotTaken(account, ip, maxEntries);
    NoneHeld(c, 1);
    AskWhenFull(account, ip, maxEntries, InTheTable(c, 1), []);
    assert [] + [refused] == [refused];
    SuccessInRedis(account, ip, maxEntries, [refused]);
    assert [refused] + [success] == [refused, success];
    SuccessInTable(account, ip, maxEntries, 1, map[], [refused]);
    MarkedLate(account, ip, maxEntries);
  }

  // ---------------------------------------------------------------------------------------------
  // A run in order that is cut short
  // ---------------------------------------------------------------------------------------------

  const THREE_ATTEMPTS := Config(3, 0, 0, 1_000 * MILLISECOND)

  function ThreeCounter(account: string, ip: string): LoginCounter {
    LoginCounter(UserIPKey(account, ip), 3)
  }

  function HeldInRedis(c: LoginCounter, n: int, end: int): Db {
    map[c.key := RedisEntry(n, Some(end))]
  }

  function HeldInTable(c: LoginCounter, n: int, end: int): Table {
    map[c.key := Counter(n, 0, 3, end)]
  }

  /**
   * A asks 100 ms before the counter ends. When it ends, C looks for local charges, which drops it from the table, and asks.
   * A and C are mirrored in this order: A opens a new window with its old reading.
   */
  function CutShort(account: string, ip: string): (r: (seq<World>, seq<Move>)) {
    var c := ThreeCounter(account, ip);
    var one, two, next := HeldInRedis(c, 1, 1_000), HeldInRedis(c, 2, 1_000), HeldInRedis(c, 1, 2_000);
    var first := Asked([c], 0, map[], Reply(one, 0, 0));
    var a := Asked([c], 900_000_000, one, Reply(two, 0, 0));
    var later := Asked([c], 1_000_000_000, two, Reply(next, 0, 0));
    ([World(State(map[], map[]), [], 0),
      World(State(map[], one), [first], 0),
      World(State(HeldInTable(c, 1, 1_000_000_000), one), [], 0),
      World(State(HeldInTable(c, 1, 1_000_000_000), two), [a], 900_000_000),
      World(State(map[], next), [a, later], 1_000_000_000),
      World(State(HeldInTable(c, 1, 1_900_000_000), next), [later], 1_000_000_000),
      World(State(HeldInTable(c, 2, 1_900_000_000), next), [], 1_000_000_000)],
     [Ask(account, ip, 0), Mirror(0, 0, map[]), Ask(account, ip, 900_000_000), Ask(account, ip, 1_000_000_000),
      Mirror(0, 0, map[]), Mirror(0, 0, HeldInTable(c, 1, 1_900_000_000))])
  }

  /** The order is kept, nothing is evicted, every reading is whole milliseconds; yet the sides count differently. */
  lemma OrderAloneIsNotEnough(account: string, ip: string, maxEntries: nat, drift: int)
    requires maxEntries > 0
    ensures var (worlds, moves) := CutShort(account, ip);
            && OverlapRun(THREE_ATTEMPTS, maxEntries, worlds, moves) && worlds[6].pending == []
            && (forall i | 0 <= i < 6 :: KeepsOrder(worlds[i], moves[i]))
            && !CutsNothingShort(worlds[3], worlds[4], moves[3])
            && !AgreeAt(THREE_ATTEMPTS, worlds[6].s, UserIPKey(account, ip), worlds[6].clock, drift)
  {
    hide Moves;
    var (worlds, moves) := CutShort(account, ip);
    CutShortRuns(account, ip, maxEntries);
    var k := UserIPKey(account, ip);
    assert worlds[4].pending[0].cs[0].key == k;
    assert Involves(worlds[4].pending[0], k) && !Spared(worlds[3].s.local, worlds[4].s.local, k, worlds[4].pending[0].now, Reading(worlds[3], moves[3]));
  }

  lemma CutShortRuns(account: string, ip: string, maxEntries: nat)
    requires maxEntries > 0
    ensures var (worlds, moves) := CutShort(account, ip); OverlapRun(THREE_ATTEMPTS, maxEntries, worlds, moves)
  {
    hide Moves, HeldInTable, ThreeCounter, HeldInRedis;
    CutShortAsks(account, ip, maxEntries);
    CutShortMirrors(account, ip, maxEntries);
  }

  lemma CutShortAsks(account: string, ip: string, maxEntries: nat)
    ensures var (worlds, moves) := CutShort(account, ip);
            && Moves(THREE_ATTEMPTS, maxEntries, worlds[0], worlds[1], moves[0])
            && Moves(THREE_ATTEMPTS, maxEntries, worlds[2], worlds[3], moves[2])
            && Moves(THREE_ATTEMPTS, maxEntries, worlds[3], worlds[4], moves[3])
  {
    hide Moves, SameLive, Holds, IncrOne;
    var (worlds, moves) := CutShort(account, ip);
    var c := ThreeCounter(account, ip);
    CutShortLive(c);
    CutShortCounts(c);
    AskMoves(account, ip, maxEntries, worlds[0], worlds[1], 0);
    AskMoves(account, ip, maxEntries, worlds[2], worlds[3], 900_000_000);
    AskMoves(account, ip, maxEntries, worlds[3], worlds[4], 1_000_000_000);
  }

  lemma CutShortLive(c: LoginCounter)
    ensures SameLive(map[], map[], 0) && !Holds(map[], [c], 0)
    ensures var t := HeldInTable(c, 1, 1_000_000_000);
            && SameLive(t, t, 900_000_000) && !Holds(t, [c], 900_000_000)
            && SameLive(t, map[], 1_000_000_000) && !Holds(t, [c], 1_000_000_000)
  {
  }

  lemma CutShortCounts(c: LoginCounter)
    ensures IncrOne(map[], c.key, 1_000, 0) == HeldInRedis(c, 1, 1_000)
    ensures IncrOne(HeldInRedis(c, 1, 1_000), c.key, 1_000, 900) == HeldInRedis(c, 2, 1_000)
    ensures IncrOne(HeldInRedis(c, 2, 1_000), c.key, 1_000, 1_000) == HeldInRedis(c, 1, 2_000)
  {
  }

  lemma {:induction false} AskMoves(account: string, ip: string, maxEntries: nat, w: World, w': World, now: int)
    requires var c := ThreeCounter(account, ip);
             && w.clock <= now && !Holds(w.s.local, [c], now) && SameLive(w.s.local, w'.s.local, now)
             && Get(w.s.db, c.key, Millis(now)) < 3 && w'.s.db == IncrOne(w.s.db, c.key, 1_000, Millis(now))
             && w'.clock == now && w'.pending == w.pending + [Asked([c], now, w.s.db, Reply(w'.s.db, 0, 0))]
    ensures Moves(THREE_ATTEMPTS, maxEntries, w, w', Ask(account, ip, now))
  {
    hide Holds, SameLive, IncrOne;
    var c := ThreeCounter(account, ip);
    assert CountersFor(THREE_ATTEMPTS, account, ip) == [c];
    assert [c][1..] == [];
    assert FirstFull(w.s.db, [c], Millis(now)) == -1;
    assert IncrAll(w.s.db, [c], 1_000, Millis(now)) == IncrOne(w.s.db, c.key, 1_000, Millis(now));
  }

  lemma CutShortMirrors(account: string, ip: string, maxEntries: nat)
    requires maxEntries > 0
    ensures var (worlds, moves) := CutShort(account, ip);
            && Moves(THREE_ATTEMPTS, maxEntries, worlds[1], worlds[2], moves[1])
            && Moves(THREE_ATTEMPTS, maxEntries, worlds[4], worlds[5], moves[4])
            && Moves(THREE_ATTEMPTS, maxEntries, worlds[5], worlds[6], moves[5])
  {
    hide Moves, Repeated, InTable, Purged;
    var (worlds, moves) := CutShort(account, ip);
    var c := ThreeCounter(account, ip);
    CutShortCharges(c);
    OneMirror(THREE_ATTEMPTS, maxEntries, c, map[], 0, worlds[1].pending[0].reply);
    OneMirror(THREE_ATTEMPTS, maxEntries, c, map[], 900_000_000, worlds[4].pending[0].reply);
    OneMirror(THREE_ATTEMPTS, maxEntries, c, HeldInTable(c, 1, 1_900_000_000), 1_000_000_000, worlds[5].pending[0].reply);
    assert Without(worlds[1].pending, 0) == [] && Without(worlds[4].pending, 0) == worlds[5].pending && Without(worlds[5].pending, 0) == [];
    MirrorMoves(THREE_ATTEMPTS, worlds[1], worlds[2], maxEntries, moves[1]);
    MirrorMoves(THREE_ATTEMPTS, worlds[4], worlds[5], maxEntries, moves[4]);
    MirrorMoves(THREE_ATTEMPTS, worlds[5], worlds[6], maxEntries, moves[5]);
  }

  lemma CutShortCharges(c: LoginCounter)
    requires c.limit == 3
    ensures InTable(THREE_ATTEMPTS, map[], c, Charging, 0) == HeldInTable(c, 1, 1_000_000_000)
    ensures InTable(THREE_ATTEMPTS, map[], c, Charging, 900_000_000) == HeldInTable(c, 1, 1_900_000_000)
    ensures InTable(THREE_ATTEMPTS, HeldInTable(c, 1, 1_900_000_000), c, Charging, 1_000_000_000) == HeldInTable(c, 2, 1_900_000_000)
    ensures Purged(map[], {c.key}, 0) == map[] && Purged(map[], {c.key}, 900_000_000) == map[]
    ensures Purged(HeldInTable(c, 1, 1_900_000_000), {c.key}, 1_000_000_000) == HeldInTable(c, 1, 1_900_000_000)
  {
  }

  /** mirror in a table that holds nothing but the counter. */
  lemma {:induction false} OneMirror(cfg: Config, maxEntries: nat, c: LoginCounter, t: Table, now: int, r: Reply)
    requires maxEntries > 0 && t.Keys <= {c.key} && r.index == 0
    ensures Repeated(cfg, maxEntries, r, t, InTable(cfg, t, c, Charging, now), [c], now, 0, Purged(t, {c.key}, now))
  {
    var room := Purged(t, {c.key}, now);
    OneKey(c);
    assert room.Keys + ({c.key} - room.Keys) == {c.key};
    assert |room.Keys| + |{c.key} - room.Keys| == |{c.key}|;
    assert RoomMade(room, room, |{c.key} - room.Keys|, {c.key}, maxEntries, now, 0);
    assert [c][1..] == [];
  }
}
