// What an operator configures: how many failed logins an account, an address and the two together
// may have within a window. LoginThrottleConfig in internal/auth/loginthrottle.go, for runs without
// Redis.
module LoginLimits {
  import opened Text
  import opened LoginCounters
  import opened LoginThrottle
  import opened ThrottleRuns

  /** A limit as the configuration names it. */
  datatype Bound = OnAccountFrom(account: string, ip: string) | OnAccount(account: string) | FromAddress(ip: string)

  /** The attempt falls under the bound. */
  predicate Under(op: Op, b: Bound) {
    op.AcquireOp? &&
    match b
    case OnAccountFrom(account, ip) => op.account == account && op.ip == ip
    case OnAccount(account) => op.account == account
    case FromAddress(ip) => op.ip == ip
  }

  /** How many attempts under the bound were allowed. */
  function Admitted(events: seq<Event>, b: Bound): nat
    decreases |events|
  {
    if events == [] then 0
    else
      var e := events[|events| - 1];
      Admitted(events[..|events| - 1], b) + if e.a.allowed && Under(e.op, b) then 1 else 0
  }

  /** The counter that stands for the bound. */
  function CounterOf(cfg: Config, b: Bound): LoginCounter
    requires Maximum(cfg, b) > 0
  {
    match b
    case OnAccountFrom(account, ip) => LoginCounter(UserIPKey(account, ip), cfg.maxUserIP)
    case OnAccount(account) => LoginCounter(UserKey(account), cfg.maxUser)
    case FromAddress(ip) => LoginCounter(IPKey(ip), cfg.maxIP)
  }

  function Maximum(cfg: Config, b: Bound): int {
    match b
    case OnAccountFrom(_, _) => cfg.maxUserIP
    case OnAccount(_) => cfg.maxUser
    case FromAddress(_) => cfg.maxIP
  }

  /** Attempts within one window of the first one, without a success, a cancellation or an eviction. */
  ghost predicate WindowRun(cfg: Config, maxEntries: nat, states: seq<State>, events: seq<Event>) {
    && LocalRun(cfg, maxEntries, states, events)
    && (forall i | 0 <= i < |events| :: events[i].op.AcquireOp? && events[i].w.dropped == 0)
    && forall i | 0 <= i < |events| :: events[i].now < events[0].now + cfg.window
  }

  lemma ChargedExactly(cfg: Config, op: Op, b: Bound)
    requires op.AcquireOp? && cfg.window > 0 && Maximum(cfg, b) > 0
    ensures HasKey(CountersFor(cfg, op.account, op.ip), CounterOf(cfg, b).key) <==> Under(op, b)
  {
    hide CountersFor;
    var cs, c := CountersFor(cfg, op.account, op.ip), CounterOf(cfg, b);
    CountersForExactly(cfg, op.account, op.ip);
    if Under(op, b) {
      assert c in cs;
    }
    if i :| 0 <= i < |cs| && cs[i].key == c.key {
      assert cs[i] in cs;
    }
  }

  /** The counter of a bound is charged by exactly the attempts that fall under it. */
  lemma {:induction false} ChargesAreAdmissions(cfg: Config, events: seq<Event>, b: Bound)
    requires cfg.window > 0 && Maximum(cfg, b) > 0 && forall i | 0 <= i < |events| :: events[i].op.AcquireOp?
    ensures Charges(cfg, events, CounterOf(cfg, b).key) == Admitted(events, b)
    decreases |events|
  {
    hide CountersFor, CounterOf, Under;
    if events != [] {
      var n := |events| - 1;
      ChargesAreAdmissions(cfg, events[..n], b);
      ChargedExactly(cfg, events[n].op, b);
    }
  }

  lemma HasWindow(cfg: Config, maxEntries: nat, states: seq<State>, events: seq<Event>)
    requires WindowRun(cfg, maxEntries, states, events)
    ensures events != [] ==> cfg.window > 0
  {
    hide LocalRun;
  }

  /** What the table knows of a bound is the number of attempts that were allowed under it. */
  lemma AdmissionsAreCounted(cfg: Config, maxEntries: nat, states: seq<State>, events: seq<Event>, b: Bound)
    requires WindowRun(cfg, maxEntries, states, events) && Maximum(cfg, b) > 0
    ensures var n, k, t := Admitted(events, b), CounterOf(cfg, b).key, states[|events|].local;
            && n <= Maximum(cfg, b)
            && (n == 0 ==> k !in t)
            && (n > 0 ==> k in t && t[k].count == n && events[0].now + cfg.window <= t[k].expires)
  {
    hide LocalStep;
    HasWindow(cfg, maxEntries, states, events);
    AtMostTheLimit(cfg, maxEntries, states, events, CounterOf(cfg, b).key);
    if events != [] {
      ChargesAreAdmissions(cfg, events, b);
    }
  }

  /** The limits that are set hold, from wherever an account is tried and whatever accounts an address tries. */
  lemma LimitsHold(cfg: Config, maxEntries: nat, states: seq<State>, events: seq<Event>, account: string, ip: string)
    requires WindowRun(cfg, maxEntries, states, events)
    ensures cfg.maxUser > 0 ==> Admitted(events, OnAccount(account)) <= cfg.maxUser
    ensures cfg.maxIP > 0 ==> Admitted(events, FromAddress(ip)) <= cfg.maxIP
    ensures cfg.maxUserIP > 0 ==> Admitted(events, OnAccountFrom(account, ip)) <= cfg.maxUserIP
  {
    hide WindowRun, Admitted;
    if cfg.maxUser > 0 {
      AdmissionsAreCounted(cfg, maxEntries, states, events, OnAccount(account));
    }
    if cfg.maxIP > 0 {
      AdmissionsAreCounted(cfg, maxEntries, states, events, FromAddress(ip));
    }
    if cfg.maxUserIP > 0 {
      AdmissionsAreCounted(cfg, maxEntries, states, events, OnAccountFrom(account, ip));
    }
  }

  /** The limit is set, and as many attempts were allowed. */
  predicate Reached(events: seq<Event>, b: Bound, limit: int) {
    limit > 0 && Admitted(events, b) >= limit
  }

  /** An attempt is refused exactly when a limit that is set was reached, and in the name of the narrowest one. */
  lemma VerdictExactly(cfg: Config, maxEntries: nat, states: seq<State>, events: seq<Event>)
    requires WindowRun(cfg, maxEntries, states, events) && events != []
    ensures var e, past := events[|events| - 1], events[..|events| - 1];
            var pair := Reached(past, OnAccountFrom(e.op.account, e.op.ip), cfg.maxUserIP);
            var user := Reached(past, OnAccount(e.op.account), cfg.maxUser);
            var addr := Reached(past, FromAddress(e.op.ip), cfg.maxIP);
            && (e.a.allowed <==> !pair && !user && !addr)
            && e.a.scope == if pair then Some(ScopeUserIP) else if user then Some(ScopeUser) else if addr then Some(ScopeIP) else None
  {
    hide LocalStep, Admitted, CountersFor;
    var n := |events| - 1;
    var e := events[n];
    HasWindow(cfg, maxEntries, states, events);
    PastRun(cfg, maxEntries, states, events);
    LastStep(cfg, maxEntries, states, events);
    var s, cs := states[n], CountersFor(cfg, e.op.account, e.op.ip);
    ReachedIsExhausted(cfg, maxEntries, states[..n + 1], events[..n], OnAccountFrom(e.op.account, e.op.ip), e.now);
    ReachedIsExhausted(cfg, maxEntries, states[..n + 1], events[..n], OnAccount(e.op.account), e.now);
    ReachedIsExhausted(cfg, maxEntries, states[..n + 1], events[..n], FromAddress(e.op.ip), e.now);
    FirstInList(cfg, s.local, e.op.account, e.op.ip, e.now);
    StepVerdict(cfg, maxEntries, s, states[n + 1], e);
  }

  lemma PastRun(cfg: Config, maxEntries: nat, states: seq<State>, events: seq<Event>)
    requires WindowRun(cfg, maxEntries, states, events) && events != []
    ensures var n := |events| - 1; WindowRun(cfg, maxEntries, states[..n + 1], events[..n])
  {
    hide LocalStep;
  }

  lemma LastStep(cfg: Config, maxEntries: nat, states: seq<State>, events: seq<Event>)
    requires WindowRun(cfg, maxEntries, states, events) && events != []
    ensures var n := |events| - 1;
            && LocalStep(cfg, maxEntries, states[n], states[n + 1], events[n]) && events[n].op.AcquireOp?
            && events[0].now <= events[n].now < events[0].now + cfg.window
  {
    hide LocalStep;
  }

  predicate IsFull(t: Table, c: LoginCounter, now: int) {
    IsLive(t, c.key, now) && t[c.key].count >= c.limit
  }

  lemma ReachedIsExhausted(cfg: Config, maxEntries: nat, states: seq<State>, events: seq<Event>, b: Bound, now: int)
    requires WindowRun(cfg, maxEntries, states, events) && (events != [] ==> now < events[0].now + cfg.window)
    ensures Maximum(cfg, b) > 0 ==> (Reached(events, b, Maximum(cfg, b)) <==> IsFull(states[|events|].local, CounterOf(cfg, b), now))
  {
    hide LocalRun, Admitted;
    if Maximum(cfg, b) > 0 {
      AdmissionsAreCounted(cfg, maxEntries, states, events, b);
      NoneAdmitted(b);
    }
  }

  lemma NoneAdmitted(b: Bound)
    ensures Admitted([], b) == 0
  {
  }

  /** Which counter of the attempt is the first that is full. */
  lemma FirstInList(cfg: Config, t: Table, account: string, ip: string, now: int)
    requires cfg.window > 0
    ensures var cs := CountersFor(cfg, account, ip);
            var i := FirstExhausted(t, cs, now);
            var pair := cfg.maxUserIP > 0 && IsFull(t, LoginCounter(UserIPKey(account, ip), cfg.maxUserIP), now);
            var user := cfg.maxUser > 0 && IsFull(t, LoginCounter(UserKey(account), cfg.maxUser), now);
            var addr := cfg.maxIP > 0 && IsFull(t, LoginCounter(IPKey(ip), cfg.maxIP), now);
            && (i < 0 <==> !pair && !user && !addr)
            && (i >= 0 ==> cs[i].key.Scope() == if pair then ScopeUserIP else if user then ScopeUser else ScopeIP)
  {
    hide CountersFor, FirstExhausted;
    var cs := CountersFor(cfg, account, ip);
    CountersForExactly(cfg, account, ip);
    var i := FirstExhausted(t, cs, now);
    forall c | c in cs && IsFull(t, c, now) ensures 0 <= i && (cs[i] == c || exists j | i < j < |cs| :: cs[j] == c) {
      var j :| 0 <= j < |cs| && cs[j] == c;
    }
    if i >= 0 {
      assert cs[i] in cs && IsFull(t, cs[i], now);
    }
  }

  lemma StepVerdict(cfg: Config, maxEntries: nat, s: State, s': State, e: Event)
    requires LocalStep(cfg, maxEntries, s, s', e) && e.op.AcquireOp?
    ensures var cs := CountersFor(cfg, e.op.account, e.op.ip);
            var i := FirstExhausted(s.local, cs, e.now);
            && (e.a.allowed <==> i < 0)
            && e.a.scope == if i < 0 then None else Some(cs[i].key.Scope())
  {
    hide CountersFor, SameLive, RoomMade, Charged, AskedReply;
    var cs := CountersFor(cfg, e.op.account, e.op.ip);
    if cs != [] {
      VerdictOnLive(s.local, e.w.mid, cs, e.now);
    }
  }
}
