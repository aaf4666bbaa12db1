// The login throttle with Redis in front of the process-local table: LoginThrottle and the two Lua
// scripts in internal/auth/loginthrottle.go. One clock serves both sides: the throttle reads it in
// nanoseconds, Redis in whole milliseconds.
module LoginThrottle {
  import opened Text
  import opened LoginCounters

  const MILLISECOND := 1_000_000

  datatype Config = Config(maxUserIP: int, maxUser: int, maxIP: int, window: int)

  datatype Attempt = Attempt(allowed: bool, scope: Option<Scope>, retryAfter: int, counters: seq<LoginCounter>, shared: bool)

  /** The limit of the counters of k's scope. */
  function Limit(cfg: Config, k: Key): int {
    match k.Scope()
    case ScopeUserIP => cfg.maxUserIP
    case ScopeUser => cfg.maxUser
    case ScopeIP => cfg.maxIP
  }

  function Enabled(cfg: Config, k: Key): seq<LoginCounter> {
    if Limit(cfg, k) > 0 then [LoginCounter(k, Limit(cfg, k))] else []
  }

  function CountersFor(cfg: Config, account: string, ip: string): (cs: seq<LoginCounter>)
    ensures |cs| <= MAX_CHARGED && DistinctKeys(cs)
    ensures forall i | 0 <= i < |cs| :: cs[i].limit == Limit(cfg, cs[i].key) > 0
    ensures cs != [] ==> cfg.window > 0
  {
    if cfg.window <= 0 then []
    else Enabled(cfg, UserIPKey(account, ip)) + Enabled(cfg, UserKey(account)) + Enabled(cfg, IPKey(ip))
  }

  /** c stands for a limit that is set and concerns the attempt. */
  predicate Configured(cfg: Config, account: string, ip: string, c: LoginCounter) {
    || (c.key == UserIPKey(account, ip) && c.limit == cfg.maxUserIP > 0)
    || (c.key == UserKey(account) && c.limit == cfg.maxUser > 0)
    || (c.key == IPKey(ip) && c.limit == cfg.maxIP > 0)
  }

  /** Without a window no attempt is counted; with one, exactly the limits that are set are, the narrowest first. */
  lemma CountersForExactly(cfg: Config, account: string, ip: string)
    ensures var cs := CountersFor(cfg, account, ip);
            && (forall c :: c in cs <==> (cfg.window > 0 && Configured(cfg, account, ip, c)))
            && forall i, j | 0 <= i < j < |cs| :: cs[i].key.UserIPKey? || (cs[i].key.UserKey? && cs[j].key.IPKey?)
  {
    if cfg.window > 0 {
      var a, b, c := Enabled(cfg, UserIPKey(account, ip)), Enabled(cfg, UserKey(account)), Enabled(cfg, IPKey(ip));
      assert CountersFor(cfg, account, ip) == a + b + c;
      assert forall x :: x in a + b + c <==> x in a || x in b || x in c;
    }
  }

  // ---------------------------------------------------------------------------------------------
  // Redis: the commands the scripts call
  // ---------------------------------------------------------------------------------------------

  /** The reading of the clock, or a duration, that Redis works with. */
  function Millis(nanos: int): int {
    nanos / MILLISECOND
  }

  /** A counter in Redis; expires is in milliseconds, as are all times of this part. */
  datatype RedisEntry = RedisEntry(count: int, expires: Option<int>)

  type Db = map<Key, RedisEntry>

  predicate Present(db: Db, k: Key, now: int) {
    k in db && (db[k].expires.Some? ==> now < db[k].expires.value)
  }

  /** tonumber(GET k or "0"). */
  function Get(db: Db, k: Key, now: int): int {
    if Present(db, k, now) then db[k].count else 0
  }

  function Incr(db: Db, k: Key, now: int): Db {
    if Present(db, k, now) then db[k := db[k].(count := db[k].count + 1)] else db[k := RedisEntry(1, None)]
  }

  function PTtl(db: Db, k: Key, now: int): int {
    if !Present(db, k, now) then -2
    else if db[k].expires == None then -1
    else db[k].expires.value - now
  }

  function PExpire(db: Db, k: Key, window: int, now: int): Db {
    if !Present(db, k, now) then db
    else if window <= 0 then db - {k}
    else db[k := db[k].(expires := Some(now + window))]
  }

  // ---------------------------------------------------------------------------------------------
  // The scripts
  // ---------------------------------------------------------------------------------------------

  /** The first counter whose count has reached its limit, or -1. */
  function FirstFull(db: Db, counters: seq<LoginCounter>, now: int): (i: int)
    ensures -1 <= i < |counters|
    ensures i >= 0 ==> Get(db, counters[i].key, now) >= counters[i].limit
    ensures forall j | 0 <= j < (if i < 0 then |counters| else i) :: Get(db, counters[j].key, now) < counters[j].limit
  {
    if counters == [] then -1
    else if Get(db, counters[0].key, now) >= counters[0].limit then 0
    else var j := FirstFull(db, counters[1..], now); if j < 0 then -1 else j + 1
  }

  function IncrOne(db: Db, k: Key, window: int, now: int): Db {
    var db' := Incr(db, k, now);
    if PTtl(db', k, now) < 0 then PExpire(db', k, window, now) else db'
  }

  function IncrAll(db: Db, counters: seq<LoginCounter>, window: int, now: int): Db
    decreases |counters|
  {
    if counters == [] then db else IncrAll(IncrOne(db, counters[0].key, window, now), counters[1..], window, now)
  }

  /** The reply: the full counter, counted from one, and its remaining milliseconds; or 0. */
  datatype Reply = Reply(db: Db, index: nat, ttl: int)

  /** What loginAcquireScript is to do. */
  function AcquireReply(db: Db, counters: seq<LoginCounter>, window: int, now: int): (r: Reply)
    ensures r.index <= |counters|
  {
    var i := FirstFull(db, counters, now);
    if i < 0 then Reply(IncrAll(db, counters, window, now), 0, 0)
    else
      var ttl := PTtl(db, counters[i].key, now);
      if ttl < 0 then Reply(PExpire(db, counters[i].key, window, now), i + 1, window) else Reply(db, i + 1, ttl)
  }

  method AcquireScript(db: Db, counters: seq<LoginCounter>, window: int, now: int) returns (r: Reply)
    ensures r == AcquireReply(db, counters, window, now)
  {
    for i := 0 to |counters|
      invariant FirstFull(db, counters, now) == var j := FirstFull(db, counters[i..], now); if j < 0 then -1 else i + j
    {
      assert counters[i..][1..] == counters[i + 1..];
      var count := Get(db, counters[i].key, now);
      if count >= counters[i].limit {
        var ttl := PTtl(db, counters[i].key, now);
        if ttl < 0 {
          return Reply(PExpire(db, counters[i].key, window, now), i + 1, window);
        }
        return Reply(db, i + 1, ttl);
      }
    }
    var charged := db;
    for i := 0 to |counters|
      invariant IncrAll(charged, counters[i..], window, now) == IncrAll(db, counters, window, now)
    {
      assert counters[i..][1..] == counters[i + 1..];
      var k := counters[i].key;
      ghost var before := charged;
      charged := Incr(charged, k, now);
      if PTtl(charged, k, now) < 0 {
        charged := PExpire(charged, k, window, now);
      }
      assert charged == IncrOne(before, k, window, now);
    }
    return Reply(charged, 0, 0);
  }

  datatype Mode = Clear | Refund

  function ReleaseKey(db: Db, k: Key, mode: Mode, now: int): Db {
    if mode == Clear then db - {k}
    else
      var count := Get(db, k, now);
      if count > 1 then db[k := db[k].(count := count - 1)] else if count == 1 then db - {k} else db
  }

  /** What loginReleaseScript is to do. */
  function ReleaseAll(db: Db, keys: seq<(Key, Mode)>, now: int): Db
    decreases |keys|
  {
    if keys == [] then db else ReleaseAll(ReleaseKey(db, keys[0].0, keys[0].1, now), keys[1..], now)
  }

  method ReleaseScript(db: Db, keys: seq<(Key, Mode)>, now: int) returns (released: Db)
    ensures released == ReleaseAll(db, keys, now)
  {
    released := db;
    for i := 0 to |keys|
      invariant ReleaseAll(released, keys[i..], now) == ReleaseAll(db, keys, now)
    {
      assert keys[i..][1..] == keys[i + 1..];
      var k := keys[i].0;
      if keys[i].1 == Clear {
        released := released - {k};
      } else {
        var count := Get(released, k, now);
        if count > 1 {
          released := released[k := released[k].(count := count - 1)];
        } else if count == 1 {
          released := released - {k};
        }
      }
    }
  }

  /** The keys and modes releaseRedis hands to the script. */
  function ReleaseModes(counters: seq<LoginCounter>, shared: bool, clearAccount: bool): seq<(Key, Mode)> {
    if counters == [] then []
    else
      (if clearAccount && counters[0].key.Scope() != ScopeIP then [(counters[0].key, Clear)]
       else if shared then [(counters[0].key, Refund)]
       else []) + ReleaseModes(counters[1..], shared, clearAccount)
  }

  // ---------------------------------------------------------------------------------------------
  // The throttle
  // ---------------------------------------------------------------------------------------------

  /** Everything a decision depends on. */
  datatype State = State(local: Table, db: Db)

  /** How a call went: whether Redis answered it, what makeRoom dropped and left. */
  datatype Course = Course(answered: bool, dropped: nat, mid: Table, room: Table)

  /** The script as the throttle calls it: the window loses what is less than a millisecond. */
  function AskedReply(cfg: Config, db: Db, cs: seq<LoginCounter>, now: int): (r: Reply)
    ensures r.index <= |cs|
  {
    AcquireReply(db, cs, Millis(cfg.window), Millis(now))
  }

  ghost predicate Holds(t: Table, counters: seq<LoginCounter>, now: int) {
    exists c | c in counters :: IsLive(t, c.key, now) && t[c.key].unshared > 0
  }

  /** mid is t without some entries whose window is over. */
  ghost predicate SameLive(t: Table, mid: Table, now: int) {
    mid.Keys <= t.Keys && Live(mid, now) == Live(t, now) && forall k | k in mid :: mid[k] == t[k]
  }

  /** The table repeats what Redis replied. */
  ghost predicate Repeated(cfg: Config, maxEntries: nat, r: Reply, t: Table, t': Table, cs: seq<LoginCounter>, now: int,
                           dropped: nat, room: Table)
    requires r.index <= |cs|
  {
    if r.index == 0 then
      var start := Purged(t, KeysOf(cs), now);
      && RoomMade(start, room, |KeysOf(cs) - start.Keys|, KeysOf(cs), maxEntries, now, dropped)
      && t' == Charged(room, cs, cfg.window, now, false)
    else
      MarkedExhausted(t, t', cs[r.index - 1], r.ttl * MILLISECOND, now, maxEntries, dropped, room)
  }

  /** The attempt that a reply means. */
  function Replied(r: Reply, cs: seq<LoginCounter>): Attempt
    requires r.index <= |cs|
  {
    if r.index == 0 then Attempt(true, None, 0, cs, true)
    else Attempt(false, Some(cs[r.index - 1].key.Scope()), r.ttl * MILLISECOND, [cs[r.index - 1]], false)
  }

  /** Redis decided and the table mirrors it. */
  ghost predicate Mirrored(cfg: Config, maxEntries: nat, s: State, s': State, cs: seq<LoginCounter>, now: int, a: Attempt, w: Course)
    requires cs != [] && cfg.window > 0
  {
    var r := AskedReply(cfg, s.db, cs, now);
    && s'.db == r.db
    && !Holds(s.local, cs, now) && SameLive(s.local, w.mid, now)
    && a == Replied(r, cs)
    && Repeated(cfg, maxEntries, r, w.mid, s'.local, cs, now, w.dropped, w.room)
  }

  /** The table decided, because Redis is not used, was not asked or did not answer. */
  ghost predicate FellBack(cfg: Config, maxEntries: nat, s: State, s': State, cs: seq<LoginCounter>, now: int, a: Attempt, w: Course)
    requires cs != [] && cfg.window > 0
  {
    // A script whose reply got lost may have run all the same.
    && (s'.db == s.db || s'.db == AskedReply(cfg, s.db, cs, now).db)
    && SameLive(s.local, w.mid, now)
    && var blocked := FirstExhausted(w.mid, cs, now);
       var retryAfter := if blocked < 0 then 0 else w.mid[cs[blocked].key].expires - now;
       && LocallyDecided(w.mid, s'.local, cs, cfg.window, now, maxEntries, blocked, retryAfter, w.dropped, w.room)
       && a == if blocked < 0 then Attempt(true, None, 0, cs, false)
               else Attempt(false, Some(cs[blocked].key.Scope()), retryAfter, [], false)
  }

  ghost predicate Acquired(cfg: Config, maxEntries: nat, s: State, s': State, account: string, ip: string, now: int, a: Attempt, w: Course) {
    var cs := CountersFor(cfg, account, ip);
    if cs == [] then s' == s && a == Attempt(true, None, 0, [], false) && w.dropped == 0
    else if w.answered then Mirrored(cfg, maxEntries, s, s', cs, now, a, w)
    else FellBack(cfg, maxEntries, s, s', cs, now, a, w)
  }

  /** The state after an attempt was handed back and Redis, if used, answered. */
  function Handed(s: State, a: Attempt, clearAccount: bool, hasRedis: bool, now: int): State {
    if !a.allowed || a.counters == [] then s
    else State(Released(s.local, a.counters, a.shared, clearAccount, now),
               if hasRedis then ReleaseAll(s.db, ReleaseModes(a.counters, a.shared, clearAccount), Millis(now)) else s.db)
  }

  class Throttle {
    const cfg: Config
    const hasRedis: bool
    const local: LocalCounters
    var db: Db

    constructor (cfg: Config, hasRedis: bool, maxEntries: nat)
      requires maxEntries >= MAX_CHARGED
      ensures this.cfg == cfg && this.hasRedis == hasRedis && fresh(local) && Valid() && local.maxEntries == maxEntries
      ensures Contents() == State(map[], map[])
    {
      this.cfg := cfg;
      this.hasRedis := hasRedis;
      local := new LocalCounters(maxEntries);
      db := map[];
    }

    ghost predicate Valid()
      reads local
    {
      MAX_CHARGED <= local.maxEntries && |local.entries| <= local.maxEntries
    }

    ghost function Contents(): State
      reads this, local
    {
      State(local.entries, db)
    }

    method Acquire(account: string, ip: string, now: int) returns (a: Attempt, ghost w: Course)
      requires Valid()
      modifies this, local
      ensures Valid()
      ensures Acquired(cfg, local.maxEntries, old(Contents()), Contents(), account, ip, now, a, w)
      ensures w.answered ==> hasRedis
      ensures !hasRedis ==> db == old(db)
    {
      var cs := CountersFor(cfg, account, ip);
      w := Course(false, 0, map[], map[]);
      if cs == [] {
        a := Attempt(true, None, 0, [], false);
        return;
      }
      hide RoomMade, Charged, Live, KeysOf, Holds, AskedReply, Mirrored, FellBack, CountersFor, DistinctKeys, SameLive;
      ghost var before := Contents();
      SameLiveSelf(before.local, now);
      if hasRedis {
        var held := local.HoldsUnshared(cs, now);
        HeldIs(before.local, local.entries, cs, now, held);
        SubsetSize(local.entries.Keys, before.local.Keys);
        if !held {
          var answered: bool := *;
          var ran: bool := *;
          if answered {
            a, w := AcquireRedis(cs, now, before);
            return;
          }
          if ran {
            var r := AcquireScript(db, cs, Millis(cfg.window), Millis(now));
            db := r.db;
          }
        }
      }
      a, w := AcquireLocal(cs, now, before);
    }

    /** The call that the table decides. */
    method AcquireLocal(cs: seq<LoginCounter>, now: int, ghost before: State) returns (a: Attempt, ghost w: Course)
      requires Valid() && cs != [] && |cs| <= MAX_CHARGED && DistinctKeys(cs) && cfg.window > 0
      requires db == before.db || db == AskedReply(cfg, before.db, cs, now).db
      requires SameLive(before.local, local.entries, now)
      modifies local
      ensures Valid() && !w.answered
      ensures FellBack(cfg, local.maxEntries, before, Contents(), cs, now, a, w)
    {
      hide RoomMade, Charged, Live, KeysOf, SameLive, AskedReply, DistinctKeys;
      ghost var mid := local.entries;
      var blocked, retryAfter, dropped, room := local.Acquire(cs, cfg.window, now);
      w := Course(false, dropped, mid, room);
      RoomBound(mid, local.entries, cs, cfg.window, now, local.maxEntries, blocked, retryAfter, dropped, room);
      if blocked >= 0 {
        a := Attempt(false, Some(cs[blocked].key.Scope()), retryAfter, [], false);
      } else {
        a := Attempt(true, None, 0, cs, false);
      }
      DecidedRetry(mid, local.entries, cs, cfg.window, now, local.maxEntries, blocked, retryAfter, dropped, room);
    }

    /** The call that Redis answers, and its repetition in the table. */
    method AcquireRedis(cs: seq<LoginCounter>, now: int, ghost before: State) returns (a: Attempt, ghost w: Course)
      requires Valid() && cs != [] && |cs| <= MAX_CHARGED && DistinctKeys(cs) && cfg.window > 0
      requires before.db == db && SameLive(before.local, local.entries, now) && !Holds(before.local, cs, now)
      modifies this, local
      ensures Valid() && w.answered
      ensures Mirrored(cfg, local.maxEntries, before, Contents(), cs, now, a, w)
    {
      hide RoomMade, Charged, Live, KeysOf, Holds, SameLive, Repeated, AcquireReply;
      ghost var mid := local.entries;
      var r := AcquireScript(db, cs, Millis(cfg.window), Millis(now));
      db := r.db;
      ghost var dropped, room;
      a, dropped, room := Mirror(cs, r, now);
      w := Course(true, dropped, mid, room);
    }

    /** mirror: the section of the table that follows a reply. */
    method Mirror(cs: seq<LoginCounter>, r: Reply, now: int) returns (a: Attempt, ghost dropped: nat, ghost room: Table)
      requires Valid() && |cs| <= MAX_CHARGED && DistinctKeys(cs) && r.index <= |cs|
      modifies local
      ensures Valid() && a == Replied(r, cs)
      ensures Repeated(cfg, local.maxEntries, r, old(local.entries), local.entries, cs, now, dropped, room)
    {
      hide RoomMade, Charged, Live, KeysOf, MarkedExhausted, AcquireReply;
      ghost var before := local.entries;
      var evicted: nat;
      if r.index == 0 {
        a := Attempt(true, None, 0, cs, true);
        evicted, room := local.MirrorCharge(cs, cfg.window, now);
        dropped := evicted;
        ChargedBound(Purged(before, KeysOf(cs), now), room, cs, cfg.window, now, false, local.maxEntries, dropped);
      } else {
        var c := cs[r.index - 1];
        a := Attempt(false, Some(c.key.Scope()), r.ttl * MILLISECOND, [c], false);
        evicted, room := local.Exhaust(c, a.retryAfter, now);
        dropped := evicted;
        ExhaustedBound(before, local.entries, c, a.retryAfter, now, local.maxEntries, dropped, room);
      }
    }

    /** Success (clearAccount) and Cancel, when Redis answers. */
    method Release(a: Attempt, clearAccount: bool, now: int)
      requires Valid()
      modifies this, local
      ensures Valid()
      ensures Contents() == Handed(old(Contents()), a, clearAccount, hasRedis, now)
    {
      if !a.allowed || a.counters == [] {
        return;
      }
      if hasRedis {
        var modes := ReleaseModes(a.counters, a.shared, clearAccount);
        db := ReleaseScript(db, modes, Millis(now));
      }
      ghost var before := local.entries;
      local.Release(a.counters, a.shared, clearAccount, now);
      ReleasedKeys(before, a.counters, a.shared, clearAccount, now);
      SubsetSize(local.entries.Keys, before.Keys);
    }
  }

  // ---------------------------------------------------------------------------------------------
  // Facts about the table's operations
  // ---------------------------------------------------------------------------------------------

  predicate HasKey(counters: seq<LoginCounter>, k: Key) {
    exists i | 0 <= i < |counters| :: counters[i].key == k
  }

  lemma KeysOfCons(counters: seq<LoginCounter>)
    requires counters != []
    ensures KeysOf(counters) == {counters[0].key} + KeysOf(counters[1..])
  {
    assert counters == [counters[0]] + counters[1..];
  }

  lemma KeysOfHas(counters: seq<LoginCounter>, k: Key)
    ensures k in KeysOf(counters) <==> HasKey(counters, k)
  {
  }

  lemma {:induction false} ChargedKeys(t: Table, counters: seq<LoginCounter>, window: int, now: int, unshared: bool)
    ensures Charged(t, counters, window, now, unshared).Keys == t.Keys + KeysOf(counters)
    decreases |counters|
  {
    hide ChargedEntry, KeysOf;
    if counters == [] {
      KeysOfHasNone();
    } else {
      KeysOfCons(counters);
      ChargedKeys(t[counters[0].key := ChargedEntry(t, counters[0], window, now, unshared)], counters[1..], window, now, unshared);
    }
  }

  lemma KeysOfHasNone()
    ensures KeysOf([]) == {}
  {
  }

  /** An entry the attempt is not charged to stays as it is. */
  lemma {:induction false} ChargedOther(t: Table, counters: seq<LoginCounter>, window: int, now: int, unshared: bool, k: Key)
    requires !HasKey(counters, k)
    ensures k in Charged(t, counters, window, now, unshared) <==> k in t
    ensures k in t ==> Charged(t, counters, window, now, unshared)[k] == t[k]
    decreases |counters|
  {
    hide ChargedEntry;
    if counters != [] {
      assert counters[0].key != k;
      assert forall i | 0 <= i < |counters| - 1 :: counters[1..][i] == counters[i + 1];
      ChargedOther(t[counters[0].key := ChargedEntry(t, counters[0], window, now, unshared)], counters[1..], window, now, unshared, k);
    }
  }

  /** A counter of the attempt is charged exactly once. */
  lemma {:induction false} ChargedOne(t: Table, counters: seq<LoginCounter>, window: int, now: int, unshared: bool, i: nat)
    requires DistinctKeys(counters) && i < |counters|
    ensures counters[i].key in Charged(t, counters, window, now, unshared)
    ensures Charged(t, counters, window, now, unshared)[counters[i].key] == ChargedEntry(t, counters[i], window, now, unshared)
    decreases |counters|
  {
    var t1 := t[counters[0].key := ChargedEntry(t, counters[0], window, now, unshared)];
    if i == 0 {
      assert !HasKey(counters[1..], counters[0].key);
      ChargedOther(t1, counters[1..], window, now, unshared, counters[0].key);
    } else {
      ChargedOne(t1, counters[1..], window, now, unshared, i - 1);
      assert counters[i].key != counters[0].key;
    }
  }

  lemma ChargedBound(t: Table, room: Table, cs: seq<LoginCounter>, window: int, now: int, unshared: bool, maxEntries: nat, dropped: nat)
    requires DistinctKeys(cs)
    requires forall k | k in KeysOf(cs) && k in t :: IsLive(t, k, now)
    requires RoomMade(t, room, |KeysOf(cs) - t.Keys|, KeysOf(cs), maxEntries, now, dropped)
    ensures |Charged(room, cs, window, now, unshared)| <= maxEntries
  {
    hide KeysOf, Charged, Live;
    ChargedKeys(room, cs, window, now, unshared);
    var keys := KeysOf(cs);
    assert keys - room.Keys == keys - t.Keys;
    UnionSize(room.Keys, keys);
  }

  lemma UnionSize<T>(a: set<T>, b: set<T>)
    ensures |a + b| == |a| + |b - a|
  {
    assert a + b == a + (b - a);
  }

  lemma {:induction false} ReleasedKeys(t: Table, cs: seq<LoginCounter>, shared: bool, clearAccount: bool, now: int)
    ensures Released(t, cs, shared, clearAccount, now).Keys <= t.Keys
    decreases |cs|
  {
    if cs != [] {
      ReleasedKeys(ReleasedOne(t, cs[0], shared, clearAccount, now), cs[1..], shared, clearAccount, now);
    }
  }

  lemma SameLiveSelf(t: Table, now: int)
    ensures SameLive(t, t, now)
  {
  }

  lemma HeldIs(t: Table, mid: Table, cs: seq<LoginCounter>, now: int, held: bool)
    requires held <==> exists c | c in cs :: IsLive(t, c.key, now) && t[c.key].unshared > 0
    requires mid.Keys <= t.Keys && Live(mid, now) == Live(t, now) && forall k | k in mid :: mid[k] == t[k]
    ensures held <==> Holds(t, cs, now)
    ensures SameLive(t, mid, now)
  {
  }

  lemma DecidedRetry(t: Table, t': Table, cs: seq<LoginCounter>, window: int, now: int, maxEntries: nat,
                     blocked: int, retryAfter: int, dropped: nat, room: Table)
    requires LocallyDecided(t, t', cs, window, now, maxEntries, blocked, retryAfter, dropped, room)
    ensures blocked == FirstExhausted(t, cs, now) && (blocked >= 0 ==> retryAfter == t[cs[blocked].key].expires - now)
    ensures blocked < 0 ==> LocallyDecided(t, t', cs, window, now, maxEntries, blocked, 0, dropped, room)
  {
  }

  lemma ExhaustedBound(t: Table, t': Table, c: LoginCounter, remaining: int, now: int, maxEntries: nat, dropped: nat, room: Table)
    requires |t| <= maxEntries && MarkedExhausted(t, t', c, remaining, now, maxEntries, dropped, room)
    ensures |t'| <= maxEntries
  {
    var start := Purged(t, {c.key}, now);
    SubsetSize(start.Keys, t.Keys);
    if t' != start {
      if c.key in room {
        assert t'.Keys == room.Keys;
      } else {
        assert t'.Keys == room.Keys + {c.key};
      }
    }
  }

  lemma RoomBound(t: Table, t': Table, cs: seq<LoginCounter>, window: int, now: int, maxEntries: nat,
                  blocked: int, retryAfter: int, dropped: nat, room: Table)
    requires |t| <= maxEntries && DistinctKeys(cs)
    requires LocallyDecided(t, t', cs, window, now, maxEntries, blocked, retryAfter, dropped, room)
    ensures |t'| <= maxEntries
  {
    if blocked >= 0 {
      SubsetSize(t'.Keys, t.Keys);
    } else {
      ChargedBound(Purged(t, KeysOf(cs), now), room, cs, window, now, true, maxEntries, dropped);
    }
  }
}