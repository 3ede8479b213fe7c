/** The per-session packet rate limiter: fixed windows, violations and bans. */
module RateLimiter {
  import opened Wrappers

  type u8 = v: int | 0 <= v < 256

  /** Time in nanoseconds. */
  const SECOND: nat := 1_000_000_000
  const BAN_DURATION: nat := 300 * SECOND
  const SOFT_LIMIT: nat := 100
  const CRITICAL_LIMIT: nat := 300
  const MAX_VIOLATIONS: nat := 3
  const CHAT_GROUP_KEY: u8 := 0xFF

  datatype Verdict =
    | Accept
    | TemporaryBan
    | CriticalRateExceeded
    | GlobalRateExceeded
    | OpcodeRateExceeded(limit: nat)

  // ------------------------------------------------------------------- opcodes

  predicate IsChat(op: u8) { op == 0x10 || op == 0x19 || op == 0x35 }

  /** `opcode_rate_limit`: chat, move, attack, magic, everything else. */
  function OpcodeLimit(op: u8): nat
  {
    if IsChat(op) then 5
    else if op == 0x06 then 20
    else if op == 0x08 then 10
    else if op == 0x31 then 10
    else 30
  }

  /** `opcode_counter_key`: the chat opcodes share one counter, which is also that of the raw byte 0xFF. */
  function CounterKey(op: u8): u8 { if IsChat(op) then CHAT_GROUP_KEY else op }

  // ------------------------------------------------------- one session, as a value

  datatype State = State(
    windowStart: nat, globalCount: nat, opcodeCounts: map<u8, nat>, violations: nat, banUntil: Option<nat>)

  function NewState(now: nat): State { State(now, 0, map[], 0, None) }

  /** `is_banned`: an expired ban is lifted and its violations forgotten. */
  function BanLifted(s: State, now: nat): State
  {
    if s.banUntil.Some? && now >= s.banUntil.value then s.(banUntil := None, violations := 0) else s
  }

  /** `maybe_reset_window`. */
  function Rewindowed(s: State, now: nat): State
  {
    if now >= s.windowStart + SECOND then s.(windowStart := now, globalCount := 0, opcodeCounts := map[]) else s
  }

  /** `record_violation`. */
  function Violated(s: State, now: nat): State
  {
    if s.violations + 1 >= MAX_VIOLATIONS
    then s.(violations := s.violations + 1, banUntil := Some(now + BAN_DURATION))
    else s.(violations := s.violations + 1)
  }

  function Count(counts: map<u8, nat>, key: u8): nat { if key in counts then counts[key] else 0 }

  function CountOf(s: State, key: u8): nat { Count(s.opcodeCounts, key) }

  /** `check_rate_limit` for a registered session that is not a game master. */
  function Check(s: State, now: nat, op: u8): (State, Verdict)
  {
    var s1 := BanLifted(s, now);
    if s1.banUntil.Some? then (s1, TemporaryBan)
    else
      var s2 := Rewindowed(s1, now);
      var s3 := s2.(globalCount := s2.globalCount + 1);
      if s3.globalCount > CRITICAL_LIMIT then (Violated(s3, now), CriticalRateExceeded)
      else if s3.globalCount > SOFT_LIMIT then (s3, GlobalRateExceeded)
      else
        var n := CountOf(s3, CounterKey(op)) + 1;
        var s4 := s3.(opcodeCounts := s3.opcodeCounts[CounterKey(op) := n]);
        if n > OpcodeLimit(op) then (Violated(s4, now), OpcodeRateExceeded(OpcodeLimit(op)))
        else (s4, Accept)
  }

  // ----------------------------------------------------------------- the objects

  class SessionRateState {
    var windowStart: nat
    var globalCount: nat
    var opcodeCounts: map<u8, nat>
    var violationCount: nat
    var banUntil: Option<nat>

    ghost function Value(): State
      reads this
    {
      State(windowStart, globalCount, opcodeCounts, violationCount, banUntil)
    }

    constructor (now: nat)
      ensures Value() == NewState(now)
    {
      windowStart, globalCount, opcodeCounts, violationCount, banUntil := now, 0, map[], 0, None;
    }

    method MaybeResetWindow(now: nat)
      modifies this
      ensures Value() == Rewindowed(old(Value()), now)
    {
      if now >= windowStart + SECOND {
        windowStart := now;
        globalCount := 0;
        opcodeCounts := map[];
      }
    }

    method RecordViolation(now: nat) returns (banned: bool)
      modifies this
      ensures Value() == Violated(old(Value()), now)
      ensures banned <==> violationCount >= MAX_VIOLATIONS
    {
      violationCount := violationCount + 1;
      if violationCount >= MAX_VIOLATIONS {
        banUntil := Some(now + BAN_DURATION);
        return true;
      }
      return false;
    }

    method IsBanned(now: nat) returns (banned: bool)
      modifies this
      ensures Value() == BanLifted(old(Value()), now)
      ensures banned <==> banUntil.Some?
    {
      if banUntil.Some? {
        if now >= banUntil.value {
          banUntil := None;
          violationCount := 0;
          return false;
        }
        return true;
      }
      return false;
    }
  }

  // ---------------------------------------------------------- connections of an address

  const MAX_CONNECTIONS_PER_IP: nat := 5

  type Ip = int
  type Counts = map<Ip, nat>

  function Connections(counts: Counts, ip: Ip): nat { if ip in counts then counts[ip] else 0 }

  /** The counts after one more connection, or unchanged when the address has its maximum. */
  function Opened(counts: Counts, ip: Ip): Counts
  {
    if Connections(counts, ip) < MAX_CONNECTIONS_PER_IP then counts[ip := Connections(counts, ip) + 1] else counts
  }

  /** The counts after a disconnect; an address with nothing left is forgotten. */
  function Closed(counts: Counts, ip: Ip): Counts
  {
    if Connections(counts, ip) <= 1 then counts - {ip} else counts[ip := counts[ip] - 1]
  }

  class RateLimiter {
    var sessions: map<nat, SessionRateState>
    var ipConnections: Counts

    /** Sessions do not share state objects. */
    ghost predicate Valid()
      reads this
    {
      forall i, j :: i in sessions && j in sessions && i != j ==> sessions[i] != sessions[j]
    }

    constructor ()
      ensures Valid() && sessions == map[] && ipConnections == map[]
    {
      sessions, ipConnections := map[], map[];
    }

    /** `register_connection`: count first, and take it back if that was one too many. */
    method RegisterConnection(ip: Ip) returns (ok: bool)
      modifies this`ipConnections
      ensures ok <==> Connections(old(ipConnections), ip) < MAX_CONNECTIONS_PER_IP
      ensures ipConnections == Opened(old(ipConnections), ip)
    {
      if ip !in ipConnections {
        ipConnections := ipConnections[ip := 0];
      }
      var current := ipConnections[ip] + 1;
      ipConnections := ipConnections[ip := current];
      if current > MAX_CONNECTIONS_PER_IP {
        ipConnections := ipConnections[ip := current - 1];
        return false;
      }
      return true;
    }

    /** `unregister_connection`. */
    method UnregisterConnection(ip: Ip)
      modifies this`ipConnections
      ensures ipConnections == Closed(old(ipConnections), ip)
    {
      if ip in ipConnections {
        var count := ipConnections[ip];
        ipConnections := if count <= 1 then ipConnections - {ip} else ipConnections[ip := count - 1];
      }
    }

    method RegisterSession(id: nat, now: nat)
      requires Valid()
      modifies this`sessions
      ensures Valid() && sessions.Keys == old(sessions).Keys + {id}
      ensures fresh(sessions[id]) && sessions[id].Value() == NewState(now)
      ensures forall i :: i in old(sessions) && i != id ==> sessions[i] == old(sessions)[i]
    {
      var state := new SessionRateState(now);
      sessions := sessions[id := state];
    }

    /** `check_rate_limit`: game masters and unknown sessions pass; nobody else's state is touched. */
    method CheckRateLimit(id: nat, op: u8, isGm: bool, now: nat) returns (v: Verdict)
      requires Valid()
      modifies if id in sessions then {sessions[id]} else {}
      ensures isGm || id !in sessions ==> v == Accept && (id in sessions ==> unchanged(sessions[id]))
      ensures !isGm && id in sessions ==> (sessions[id].Value(), v) == Check(old(sessions[id].Value()), now, op)
    {
      if isGm {
        return Accept;
      }
      if id !in sessions {
        return Accept;
      }
      var state := sessions[id];
      var banned := state.IsBanned(now);
      if banned {
        return TemporaryBan;
      }
      state.MaybeResetWindow(now);
      state.globalCount := state.globalCount + 1;
      if state.globalCount > CRITICAL_LIMIT {
        var b := state.RecordViolation(now);
        return CriticalRateExceeded;
      }
      if state.globalCount > SOFT_LIMIT {
        return GlobalRateExceeded;
      }
      var key := CounterKey(op);
      var n := Count(state.opcodeCounts, key) + 1;
      state.opcodeCounts := state.opcodeCounts[key := n];
      var limit := OpcodeLimit(op);
      if n > limit {
        var b := state.RecordViolation(now);
        return OpcodeRateExceeded(limit);
      }
      return Accept;
    }
  }

  // ------------------------------------------------------------------------ runs

  /** A packet and the time it is checked. */
  datatype Event = Event(time: nat, op: u8)

  /** A monotone clock. */
  predicate Monotone(start: nat, events: seq<Event>)
  {
    && (forall i :: 0 <= i < |events| ==> start <= events[i].time)
    && (forall i, j :: 0 <= i < j < |events| ==> events[i].time <= events[j].time)
  }

  /** A family of packets limited together: all of them, or those with the key and limit of `op`. */
  datatype Group = All | Like(op: u8)

  predicate InGroup(g: Group, op: u8)
  {
    g.All? || (CounterKey(op) == CounterKey(g.op) && OpcodeLimit(op) == OpcodeLimit(g.op))
  }

  function GroupLimit(g: Group): nat { if g.All? then SOFT_LIMIT else OpcodeLimit(g.op) }

  /** The counter that limits the group. */
  function GroupCount(s: State, g: Group): nat { if g.All? then s.globalCount else CountOf(s, CounterKey(g.op)) }

  /** Accepted packets of group `g` with times in `[t, t + SECOND)`. */
  function AcceptedWithin(s: State, events: seq<Event>, g: Group, t: nat): nat
    decreases |events|
  {
    if events == [] then 0 else
      var (s', v) := Check(s, events[0].time, events[0].op);
      (if v == Accept && InGroup(g, events[0].op) && t <= events[0].time < t + SECOND then 1 else 0)
        + AcceptedWithin(s', events[1..], g, t)
  }

  /** What `c` packets of the group accepted so far in `[t, t + SECOND)` say about the
    * current window: at most two windows touch the interval. */
  predicate Accounted(s: State, g: Group, t: nat, now: nat, c: nat)
  {
    && (now < t ==> c == 0)
    && (s.windowStart < t ==> c <= GroupCount(s, g) && c <= GroupLimit(g))
    && (t <= s.windowStart < t + SECOND ==> c <= GroupLimit(g) + GroupCount(s, g))
    && c <= 2 * GroupLimit(g)
    && s.windowStart <= now
  }

  lemma AccountedStep(s: State, g: Group, t: nat, now: nat, c: nat, e: Event)
    requires Accounted(s, g, t, now, c) && now <= e.time
    ensures var (s', v) := Check(s, e.time, e.op);
      var c' := c + (if v == Accept && InGroup(g, e.op) && t <= e.time < t + SECOND then 1 else 0);
      Accounted(s', g, t, e.time, c')
  {
  }

  lemma {:induction false} BoundedFrom(s: State, events: seq<Event>, g: Group, t: nat, now: nat, c: nat)
    requires Accounted(s, g, t, now, c) && Monotone(now, events)
    ensures c + AcceptedWithin(s, events, g, t) <= 2 * GroupLimit(g)
    decreases |events|
  {
    if events != [] {
      var e := events[0];
      var (s', v) := Check(s, e.time, e.op);
      AccountedStep(s, g, t, now, c, e);
      hide Check, Accounted, InGroup;
      BoundedFrom(s', events[1..], g, t, e.time,
        c + (if v == Accept && InGroup(g, e.op) && t <= e.time < t + SECOND then 1 else 0));
    }
  }

  /** In every run of a session, every half-open second holds at most twice the limit of
    * accepted packets: 200 in all, 10 of the chat group. */
  lemma SlidingSecondBound(registered: nat, events: seq<Event>, g: Group, t: nat)
    requires Monotone(registered, events)
    ensures AcceptedWithin(NewState(registered), events, g, t) <= 2 * GroupLimit(g)
  {
    BoundedFrom(NewState(registered), events, g, t, registered, 0);
  }

  lemma TwoHundredAndTen(registered: nat, events: seq<Event>, t: nat)
    requires Monotone(registered, events)
    ensures AcceptedWithin(NewState(registered), events, All, t) <= 200
    ensures AcceptedWithin(NewState(registered), events, Like(0x10), t) <= 10
  {
    SlidingSecondBound(registered, events, All, t);
    SlidingSecondBound(registered, events, Like(0x10), t);
  }

  // -------------------------------------------------------------- the bound is reached

  type Digit = m: nat | m < 10

  /** `n` packets at one time, cycling through ten unrestricted opcodes. */
  function Burst(time: nat, n: nat): (r: seq<Event>)
    ensures |r| == n
  {
    seq(n, i requires 0 <= i < n => Event(time, BurstOp(i % 10)))
  }

  /** The opcode of packet `k` of a burst, and how often opcode `m` occurs before it. */
  function BurstOp(m: Digit): u8 { 0x40 + m }

  function Occurrences(k: nat, m: Digit): nat { (k + 9 - m) / 10 }

  /** The counters after `k` packets of such a burst in a fresh window. */
  predicate MidBurst(s: State, time: nat, k: nat)
  {
    && s.banUntil == None
    && s.globalCount == k
    && s.windowStart <= time < s.windowStart + SECOND
    && forall m :: 0 <= m < 10 ==> CountOf(s, BurstOp(m)) == Occurrences(k, m)
  }

  function After(s: State, events: seq<Event>): State
    decreases |events|
  {
    if events == [] then s else After(Check(s, events[0].time, events[0].op).0, events[1..])
  }

  lemma BurstStep(s: State, time: nat, k: nat)
    requires MidBurst(s, time, k) && k < 100
    ensures var (s', v) := Check(s, time, BurstOp(k % 10));
      v == Accept && MidBurst(s', time, k + 1) && s'.windowStart == s.windowStart
  {
    var op := BurstOp(k % 10);
    var (s', v) := Check(s, time, op);
    OneMore(k, k % 10);
    hide Occurrences;
    assert s' == s.(globalCount := k + 1, opcodeCounts := s.opcodeCounts[op := CountOf(s, op) + 1]);
    forall m | 0 <= m < 10
      ensures CountOf(s', BurstOp(m)) == Occurrences(k + 1, m)
    {
      OneMore(k, m);
    }
  }

  lemma OneMore(k: nat, m: Digit)
    requires k < 100
    ensures Occurrences(k + 1, m) == Occurrences(k, m) + (if m == k % 10 then 1 else 0)
    ensures Occurrences(k, m) <= 10
  {
  }

  lemma {:induction false} BurstAccepted(s: State, time: nat, k: nat, n: nat, t: nat)
    requires MidBurst(s, time, k) && k + n <= 100 && t <= time < t + SECOND
    ensures var events := Burst(time, k + n)[k..];
      AcceptedWithin(s, events, All, t) == n && After(s, events).windowStart == s.windowStart
        && After(s, events).banUntil == None
    decreases n
  {
    hide Check, BurstOp, Burst;
    BurstTail(time, k, n);
    if n > 0 {
      BurstStep(s, time, k);
      hide MidBurst;
      BurstAccepted(Check(s, time, BurstOp(k % 10)).0, time, k + 1, n - 1, t);
    }
  }

  lemma BurstTail(time: nat, k: nat, n: nat)
    ensures n == 0 ==> Burst(time, k + n)[k..] == []
    ensures n > 0 ==>
      Burst(time, k + n)[k..] == [Event(time, BurstOp(k % 10))] + Burst(time, k + n)[k + 1..]
  {
  }

  lemma {:induction false} AcceptedAppend(s: State, a: seq<Event>, b: seq<Event>, g: Group, t: nat)
    ensures AcceptedWithin(s, a + b, g, t) == AcceptedWithin(s, a, g, t) + AcceptedWithin(After(s, a), b, g, t)
    decreases |a|
  {
    hide Check, InGroup;
    if a == [] {
      assert a + b == b;
    } else {
      assert (a + b)[1..] == a[1..] + b;
      AcceptedAppend(Check(s, a[0].time, a[0].op).0, a[1..], b, g, t);
    }
  }

  /** As many packets of a group at one time as its limit allows. */
  function GroupBurst(g: Group, time: nat): seq<Event>
  {
    if g.All? then Burst(time, SOFT_LIMIT) else Copies(g.op, time, GroupLimit(g))
  }

  function Copies(op: u8, time: nat, n: nat): (r: seq<Event>)
    ensures |r| == n
  {
    if n == 0 then [] else [Event(time, op)] + Copies(op, time, n - 1)
  }

  /** A window that has just begun, and no ban. */
  predicate FreshWindow(s: State, time: nat)
  {
    s.banUntil == None && s.globalCount == 0 && s.opcodeCounts == map[]
      && s.windowStart <= time < s.windowStart + SECOND
  }

  lemma {:induction false} CopiesAccepted(s: State, op: u8, time: nat, n: nat, t: nat)
    requires s.banUntil == None && s.windowStart <= time < s.windowStart + SECOND && t <= time < t + SECOND
    requires s.globalCount + n <= SOFT_LIMIT && CountOf(s, CounterKey(op)) + n <= OpcodeLimit(op)
    ensures var events := Copies(op, time, n);
      AcceptedWithin(s, events, Like(op), t) == n && After(s, events).windowStart == s.windowStart
        && After(s, events).banUntil == None
    decreases n
  {
    hide CounterKey, OpcodeLimit;
    if n > 0 {
      CopiesAccepted(Check(s, time, op).0, op, time, n - 1, t);
    }
  }

  /** A burst in a fresh window is accepted whole. */
  lemma GroupBurstAccepted(s: State, g: Group, time: nat, t: nat)
    requires FreshWindow(s, time) && t <= time < t + SECOND
    ensures var events := GroupBurst(g, time);
      AcceptedWithin(s, events, g, t) == GroupLimit(g) && After(s, events).windowStart == s.windowStart
        && After(s, events).banUntil == None
  {
    if g.All? {
      BurstAccepted(s, time, 0, SOFT_LIMIT, t);
      assert Burst(time, SOFT_LIMIT)[0..] == Burst(time, SOFT_LIMIT);
    } else {
      hide Check;
      CopiesAccepted(s, g.op, time, GroupLimit(g), t);
    }
  }

  /** When a window is over, the next burst opens a new one. */
  lemma NextBurst(s: State, g: Group, t: nat)
    requires s.banUntil == None && s.windowStart < t <= s.windowStart + SECOND
    ensures AcceptedWithin(s, GroupBurst(g, s.windowStart + SECOND), g, t) == GroupLimit(g)
  {
    var early := s.windowStart + SECOND;
    var moved := Rewindowed(s, early);
    var events := GroupBurst(g, early);
    GroupBurstAccepted(moved, g, early, t);
    assert events != [] && events[0].time == early;
    assert Check(s, early, events[0].op) == Check(moved, early, events[0].op);
  }

  /** Two bursts on both sides of a window boundary: twice the limit within two nanoseconds,
    * 200 packets of any kind or 10 of the chat group. */
  lemma BoundIsReached(registered: nat, g: Group)
    ensures var late, early := registered + SECOND - 1, registered + SECOND;
      AcceptedWithin(NewState(registered), GroupBurst(g, late) + GroupBurst(g, early), g, late) == 2 * GroupLimit(g)
  {
    hide Check, GroupBurst, GroupLimit;
    var late := registered + SECOND - 1;
    var s0 := NewState(registered);
    GroupBurstAccepted(s0, g, late, late);
    AcceptedAppend(s0, GroupBurst(g, late), GroupBurst(g, registered + SECOND), g, late);
    NextBurst(After(s0, GroupBurst(g, late)), g, late);
  }

  // ----------------------------------------------------- when the limit itself holds

  /** Accepted packets of group `g` in the window that starts at `w`. */
  function AcceptedInWindow(s: State, events: seq<Event>, g: Group, w: nat): nat
    decreases |events|
  {
    if events == [] then 0 else
      var (s', v) := Check(s, events[0].time, events[0].op);
      (if v == Accept && InGroup(g, events[0].op) && s'.windowStart == w then 1 else 0)
        + AcceptedInWindow(s', events[1..], g, w)
  }

  /** What `c` packets of the group accepted so far in the window of `w` say. */
  predicate Windowed(s: State, g: Group, w: nat, c: nat)
  {
    && c <= GroupLimit(g)
    && (s.windowStart < w ==> c == 0)
    && (s.windowStart == w ==> c <= GroupCount(s, g))
  }

  lemma WindowedStep(s: State, g: Group, w: nat, c: nat, e: Event)
    requires Windowed(s, g, w, c)
    ensures var (s', v) := Check(s, e.time, e.op);
      Windowed(s', g, w, c + (if v == Accept && InGroup(g, e.op) && s'.windowStart == w then 1 else 0))
  {
  }

  lemma {:induction false} WindowedFrom(s: State, events: seq<Event>, g: Group, w: nat, c: nat)
    requires Windowed(s, g, w, c)
    ensures c + AcceptedInWindow(s, events, g, w) <= GroupLimit(g)
    decreases |events|
  {
    if events != [] {
      var e := events[0];
      WindowedStep(s, g, w, c, e);
      var (s', v) := Check(s, e.time, e.op);
      hide Check, InGroup, Windowed;
      WindowedFrom(s', events[1..], g, w,
        c + (if v == Accept && InGroup(g, e.op) && s'.windowStart == w then 1 else 0));
    }
  }

  /** In every run, even with a clock that goes back, no window takes more than the limit. */
  lemma WindowBound(registered: nat, events: seq<Event>, g: Group, w: nat)
    ensures AcceptedInWindow(NewState(registered), events, g, w) <= GroupLimit(g)
  {
    WindowedFrom(NewState(registered), events, g, w, 0);
  }

  /** No window reaches over `t`, or the one that does takes no more packets of the group. */
  predicate Settled(s: State, g: Group, t: nat)
  {
    || s.windowStart + SECOND <= t
    || s.windowStart == t
    || s.banUntil.Some?
    || s.globalCount >= SOFT_LIMIT
    || GroupCount(s, g) >= GroupLimit(g)
  }

  /** What every run keeps: a ban outlasts its window, and four of the opcodes with the
    * highest limit cannot be counted more often than all packets. */
  predicate Reached(s: State, now: nat)
  {
    && s.windowStart <= now
    && (s.banUntil.Some? ==> s.banUntil.value >= s.windowStart + BAN_DURATION)
    && FourCounts(s.opcodeCounts) <= s.globalCount
  }

  function FourCounts(counts: map<u8, nat>): nat
  {
    Count(counts, 0x40) + Count(counts, 0x41) + Count(counts, 0x42) + Count(counts, 0x43)
  }

  lemma OneMoreCounted(counts: map<u8, nat>, key: u8)
    ensures FourCounts(counts[key := Count(counts, key) + 1]) <= FourCounts(counts) + 1
    ensures FourCounts(map[]) == 0
  {
  }

  lemma ReachedStep(s: State, now: nat, e: Event)
    requires Reached(s, now) && now <= e.time
    ensures Reached(Check(s, e.time, e.op).0, e.time)
  {
    hide FourCounts, CounterKey, OpcodeLimit, Count;
    OneMoreCounted(s.opcodeCounts, CounterKey(e.op));
    OneMoreCounted(map[], CounterKey(e.op));
  }

  lemma {:induction false} ReachedAlways(s: State, events: seq<Event>, now: nat, bound: nat)
    requires Reached(s, now) && Monotone(now, events) && now <= bound
    requires forall i :: 0 <= i < |events| ==> events[i].time <= bound
    ensures Reached(After(s, events), bound)
    decreases |events|
  {
    if events != [] {
      ReachedStep(s, now, events[0]);
      hide Check, Reached;
      ReachedAlways(Check(s, events[0].time, events[0].op).0, events[1..], events[0].time, bound);
    } else {
      assert After(s, events) == s;
    }
  }

  /** Where the `c` packets accepted since `t` stand: the second is over, a ban covers it,
    * its first window is still to come or has begun, or the window reaching into it is used up. */
  predicate Settling(s: State, g: Group, t: nat, now: nat, c: nat)
  {
    && c <= GroupLimit(g)
    && s.windowStart <= now
    && (|| t + SECOND <= now
        || (s.banUntil.Some? && t + SECOND <= s.banUntil.value)
        || (c == 0 && s.windowStart + SECOND <= t)
        || (t <= s.windowStart && c <= GroupCount(s, g))
        || (c == 0 && s.windowStart < t && (s.globalCount >= SOFT_LIMIT || GroupCount(s, g) >= GroupLimit(g))))
  }

  lemma SettlingStep(s: State, g: Group, t: nat, now: nat, c: nat, e: Event)
    requires Settling(s, g, t, now, c) && t <= now <= e.time
    ensures var (s', v) := Check(s, e.time, e.op);
      Settling(s', g, t, e.time, c + (if v == Accept && InGroup(g, e.op) && t <= e.time < t + SECOND then 1 else 0))
  {
  }

  lemma {:induction false} SettlingFrom(s: State, events: seq<Event>, g: Group, t: nat, now: nat, c: nat)
    requires Settling(s, g, t, now, c) && Monotone(now, events) && t <= now
    ensures c + AcceptedWithin(s, events, g, t) <= GroupLimit(g)
    decreases |events|
  {
    if events != [] {
      var e := events[0];
      SettlingStep(s, g, t, now, c, e);
      var (s', v) := Check(s, e.time, e.op);
      hide Check, InGroup, Settling;
      SettlingFrom(s', events[1..], g, t, e.time,
        c + (if v == Accept && InGroup(g, e.op) && t <= e.time < t + SECOND then 1 else 0));
    }
  }

  /** A packet of the group that is accepted, if the window is not used up. */
  function FreeOp(s: State, g: Group): u8
  {
    if g.Like? then g.op
    else if CountOf(s, 0x40) < 30 then 0x40
    else if CountOf(s, 0x41) < 30 then 0x41
    else if CountOf(s, 0x42) < 30 then 0x42
    else 0x43
  }

  lemma FreeOpAccepted(s: State, g: Group, t: nat)
    requires Reached(s, t) && !Settled(s, g, t)
    ensures var (s', v) := Check(s, t, FreeOp(s, g));
      v == Accept && InGroup(g, FreeOp(s, g)) && s'.windowStart == s.windowStart && s'.banUntil == None
  {
  }

  /** One packet at `t` and a burst in the next window: one more than the limit. */
  function Excess(s: State, g: Group, t: nat): seq<Event>
  {
    [Event(t, FreeOp(s, g))] + GroupBurst(g, s.windowStart + SECOND)
  }

  lemma ExcessAccepted(s: State, g: Group, t: nat)
    requires Reached(s, t) && !Settled(s, g, t)
    ensures AcceptedWithin(s, Excess(s, g, t), g, t) == GroupLimit(g) + 1
  {
    hide Check, InGroup, FreeOp, GroupBurst, GroupLimit, GroupCount;
    FreeOpAccepted(s, g, t);
    NextBurst(Check(s, t, FreeOp(s, g)).0, g, t);
    assert Excess(s, g, t)[1..] == GroupBurst(g, s.windowStart + SECOND);
  }

  lemma ExcessMonotone(s: State, g: Group, t: nat)
    requires !Settled(s, g, t)
    ensures Monotone(t, Excess(s, g, t))
  {
    hide Burst, BurstOp, FreeOp;
    var time := s.windowStart + SECOND;
    BurstTimes(g, time);
  }

  lemma BurstTimes(g: Group, time: nat)
    ensures forall i :: 0 <= i < |GroupBurst(g, time)| ==> GroupBurst(g, time)[i].time == time
  {
    if g.Like? {
      CopiesTimes(g.op, time, GroupLimit(g));
    }
  }

  lemma {:induction false} CopiesTimes(op: u8, time: nat, n: nat)
    ensures forall i :: 0 <= i < n ==> Copies(op, time, n)[i].time == time
  {
    if n > 0 {
      CopiesTimes(op, time, n - 1);
    }
  }

  lemma {:induction false} NoneBefore(s: State, events: seq<Event>, g: Group, t: nat)
    requires forall i :: 0 <= i < |events| ==> events[i].time < t
    ensures AcceptedWithin(s, events, g, t) == 0
    decreases |events|
  {
    hide Check, InGroup;
    if events != [] {
      NoneBefore(Check(s, events[0].time, events[0].op).0, events[1..], g, t);
    }
  }

  /** After any run before `t`, the second from `t` on keeps the limit whatever arrives, exactly
    * when no window reaches over `t` that could still take a packet of the group. */
  lemma LimitHoldsExactly(registered: nat, before: seq<Event>, g: Group, t: nat)
    requires registered <= t && Monotone(registered, before)
    requires forall i :: 0 <= i < |before| ==> before[i].time < t
    ensures (forall later :: Monotone(t, later) ==>
        AcceptedWithin(NewState(registered), before + later, g, t) <= GroupLimit(g))
      <==> Settled(After(NewState(registered), before), g, t)
  {
    var s0 := NewState(registered);
    var s := After(s0, before);
    ReachedAlways(s0, before, registered, t);
    NoneBefore(s0, before, g, t);
    if Settled(s, g, t) {
      assert Settling(s, g, t, t, 0);
      forall later | Monotone(t, later)
        ensures AcceptedWithin(s0, before + later, g, t) <= GroupLimit(g)
      {
        AcceptedAppend(s0, before, later, g, t);
        SettlingFrom(s, later, g, t, t, 0);
      }
    } else {
      ExcessMonotone(s, g, t);
      ExcessAccepted(s, g, t);
      AcceptedAppend(s0, before, Excess(s, g, t), g, t);
    }
  }

  /** A second after a quiet second keeps the limit. */
  lemma QuietSecond(registered: nat, before: seq<Event>, later: seq<Event>, g: Group, t: nat)
    requires Monotone(registered, before) && Monotone(t, later)
    requires forall i :: 0 <= i < |before| ==> before[i].time + SECOND <= t
    requires registered + SECOND <= t || (registered == t && before == [])
    ensures AcceptedWithin(NewState(registered), before + later, g, t) <= GroupLimit(g)
  {
    if before != [] || registered + SECOND <= t {
      ReachedAlways(NewState(registered), before, registered, t - SECOND);
    }
    LimitHoldsExactly(registered, before, g, t);
  }

  // ----------------------------------------------------------- violations and bans

  /** What a run has seen: all violations recorded and all bans that expired. */
  datatype Tally = Tally(state: State, violations: nat, expired: nat)

  predicate IsViolation(v: Verdict) { v.CriticalRateExceeded? || v.OpcodeRateExceeded? }

  function Tallied(y: Tally, e: Event): Tally
  {
    var (s', v) := Check(y.state, e.time, e.op);
    Tally(s',
      y.violations + (if IsViolation(v) then 1 else 0),
      y.expired + (if y.state.banUntil.Some? && e.time >= y.state.banUntil.value then 1 else 0))
  }

  function TallyRun(y: Tally, events: seq<Event>): Tally
    decreases |events|
  {
    if events == [] then y else TallyRun(Tallied(y, events[0]), events[1..])
  }

  /** A session is banned exactly while its three violations stand. */
  predicate Balanced(y: Tally)
  {
    && (y.state.banUntil.Some? <==> y.state.violations == MAX_VIOLATIONS)
    && y.state.violations <= MAX_VIOLATIONS
    && y.violations == MAX_VIOLATIONS * y.expired + y.state.violations
  }

  lemma {:induction false} BalancedAlways(y: Tally, events: seq<Event>)
    requires Balanced(y)
    ensures Balanced(TallyRun(y, events))
    decreases |events|
  {
    if events != [] {
      assert Balanced(Tallied(y, events[0]));
      hide Balanced, Tallied;
      BalancedAlways(Tallied(y, events[0]), events[1..]);
    }
  }

  /** In every reachable state the violations ever recorded are three for each expired
    * ban and the current count, which is three exactly during a ban. */
  lemma ViolationsAccounted(registered: nat, events: seq<Event>)
    ensures Balanced(TallyRun(Tally(NewState(registered), 0, 0), events))
  {
    BalancedAlways(Tally(NewState(registered), 0, 0), events);
  }

  /** The verdicts of a run. */
  function Verdicts(s: State, events: seq<Event>): (r: seq<Verdict>)
    ensures |r| == |events|
    decreases |events|
  {
    if events == [] then [] else
      var (s', v) := Check(s, events[0].time, events[0].op);
      [v] + Verdicts(s', events[1..])
  }

  /** While a ban stands every packet gets the ban verdict and the ban does not move;
    * the first packet at or after its end is judged as if there had been none. */
  lemma {:induction false} BanHolds(s: State, events: seq<Event>, until: nat, i: nat)
    requires s.banUntil == Some(until) && i < |events|
    requires forall j :: 0 <= j < i ==> events[j].time < until
    ensures events[i].time < until ==> Verdicts(s, events)[i] == TemporaryBan
    ensures events[i].time >= until ==>
      Verdicts(s, events)[i] == Check(s.(banUntil := None, violations := 0), events[i].time, events[i].op).1
    decreases i
  {
    if i > 0 {
      assert Check(s, events[0].time, events[0].op) == (s, TemporaryBan);
      hide Check;
      BanHolds(s, events[1..], until, i - 1);
    }
  }

  /** A third violation at `now` bans for exactly `BAN_DURATION`: no packet before then is accepted. */
  lemma {:induction false} ThirdViolationBans(s: State, now: nat, op: u8, events: seq<Event>, i: nat)
    requires s.banUntil == None && s.violations == MAX_VIOLATIONS - 1 && IsViolation(Check(s, now, op).1)
    requires Monotone(now, events) && i < |events| && events[i].time < now + BAN_DURATION
    ensures Verdicts(Check(s, now, op).0, events)[i] == TemporaryBan
  {
    BanHolds(Check(s, now, op).0, events, now + BAN_DURATION, i);
  }

  // --------------------------------------------------- every verdict, by counting packets

  /** The limit of an opcode for a second: chat, move, attack, magic, anything else. */
  function LimitOf(op: u8): nat
  {
    if op in {0x10, 0x19, 0x35} then 5
    else if op == 0x06 then 20
    else if op in {0x08, 0x31} then 10
    else 30
  }

  /** Opcodes that are counted together: the chat opcodes, and the byte that is their key. */
  predicate SameCounter(a: u8, b: u8)
  {
    a == b || (a in {0x10, 0x19, 0x35, 0xFF} && b in {0x10, 0x19, 0x35, 0xFF})
  }

  /** The start of the window after the first `n` packets of a run with verdicts `vs`: a packet
    * that is checked a second or more after the start begins a new one. */
  function WindowAt(registered: nat, events: seq<Event>, vs: seq<Verdict>, n: nat): nat
    requires n <= |events| == |vs|
  {
    if n == 0 then registered else
      var w := WindowAt(registered, events, vs, n - 1);
      if vs[n - 1] != TemporaryBan && events[n - 1].time >= w + 1_000_000_000 then events[n - 1].time else w
  }

  /** Those of the first `n` packets that were checked in the window they end in. */
  function Window(registered: nat, events: seq<Event>, vs: seq<Verdict>, n: nat): set<nat>
    requires n <= |events| == |vs|
  {
    set k | 0 <= k < n && vs[k] != TemporaryBan
      && WindowAt(registered, events, vs, k + 1) == WindowAt(registered, events, vs, n)
  }

  /** Those among them that share a counter with `op`. */
  function CountedWith(registered: nat, events: seq<Event>, vs: seq<Verdict>, n: nat, op: u8): set<nat>
    requires n <= |events| == |vs|
  {
    set k | k in Window(registered, events, vs, n) && SameCounter(events[k].op, op)
  }

  /** The violations among the first `n` packets. */
  function ViolationsIn(vs: seq<Verdict>, n: nat): set<nat>
    requires n <= |vs|
  {
    set k | 0 <= k < n && (vs[k].CriticalRateExceeded? || vs[k].OpcodeRateExceeded?)
  }

  /** Packet `j` is a third violation: it bans. */
  predicate Bans(vs: seq<Verdict>, j: nat)
    requires j < |vs|
  {
    j in ViolationsIn(vs, j + 1) && |ViolationsIn(vs, j + 1)| % 3 == 0
  }

  /** Packet `i` comes within 300 seconds of a packet that bans. */
  predicate BannedAt(events: seq<Event>, vs: seq<Verdict>, i: nat)
    requires i < |events| == |vs|
  {
    exists j :: 0 <= j < i && Bans(vs, j) && events[i].time < events[j].time + 300_000_000_000
  }

  /** The state before packet `n` of a run. */
  function StateAt(registered: nat, events: seq<Event>, n: nat): State
    requires n <= |events|
  {
    if n == 0 then NewState(registered)
    else Check(StateAt(registered, events, n - 1), events[n - 1].time, events[n - 1].op).0
  }

  lemma {:induction false} VerdictFrom(registered: nat, events: seq<Event>, k: nat, i: nat)
    requires k <= i < |events|
    ensures Verdicts(StateAt(registered, events, k), events[k..])[i - k]
      == Check(StateAt(registered, events, i), events[i].time, events[i].op).1
    decreases i - k
  {
    hide Check;
    assert events[k..][0] == events[k] && events[k..][1..] == events[k + 1..];
    if k < i {
      VerdictFrom(registered, events, k + 1, i);
      assert StateAt(registered, events, k + 1)
        == Check(StateAt(registered, events, k), events[k].time, events[k].op).0;
    }
  }

  /** The verdicts of the run, as its steps give them. */
  ghost predicate IsRun(registered: nat, events: seq<Event>, vs: seq<Verdict>)
    requires |vs| == |events|
  {
    forall i :: 0 <= i < |events| ==>
      vs[i] == Check(StateAt(registered, events, i), events[i].time, events[i].op).1
  }

  lemma RunStep(registered: nat, events: seq<Event>, vs: seq<Verdict>, i: nat)
    requires |vs| == |events| && IsRun(registered, events, vs) && i < |events|
    ensures vs[i] == Check(StateAt(registered, events, i), events[i].time, events[i].op).1
    ensures StateAt(registered, events, i + 1)
      == Check(StateAt(registered, events, i), events[i].time, events[i].op).0
  {
    hide Check;
  }

  lemma VerdictsAreRun(registered: nat, events: seq<Event>)
    ensures IsRun(registered, events, Verdicts(NewState(registered), events))
  {
    hide Check;
    forall i | 0 <= i < |events|
      ensures Verdicts(NewState(registered), events)[i]
        == Check(StateAt(registered, events, i), events[i].time, events[i].op).1
    {
      VerdictFrom(registered, events, 0, i);
      assert events[0..] == events;
    }
  }

  lemma {:induction false} WindowsAscend(registered: nat, events: seq<Event>, vs: seq<Verdict>, k: nat, n: nat)
    requires k <= n <= |events| == |vs|
    ensures WindowAt(registered, events, vs, k) <= WindowAt(registered, events, vs, n)
    decreases n
  {
    if k < n {
      WindowsAscend(registered, events, vs, k, n - 1);
    }
  }

  lemma WindowStep(registered: nat, events: seq<Event>, vs: seq<Verdict>, i: nat)
    requires i < |events| == |vs|
    ensures var w, before, after := WindowAt(registered, events, vs, i),
        Window(registered, events, vs, i), Window(registered, events, vs, i + 1);
      && i !in before
      && after == if vs[i] == TemporaryBan then before
                  else if events[i].time >= w + SECOND then {i} else before + {i}
  {
    if events[i].time >= WindowAt(registered, events, vs, i) + SECOND {
      forall k | 0 <= k <= i
        ensures WindowAt(registered, events, vs, k) <= WindowAt(registered, events, vs, i)
      {
        WindowsAscend(registered, events, vs, k, i);
      }
    }
  }

  lemma CountedStep(registered: nat, events: seq<Event>, vs: seq<Verdict>, i: nat, op: u8)
    requires i < |events| == |vs|
    ensures var w, before, after := WindowAt(registered, events, vs, i),
        CountedWith(registered, events, vs, i, op), CountedWith(registered, events, vs, i + 1, op);
      var own := if SameCounter(events[i].op, op) then {i} else {};
      && i !in before
      && after == if vs[i] == TemporaryBan then before
                  else if events[i].time >= w + SECOND then own else before + own
  {
    hide WindowAt, Window, SameCounter;
    WindowStep(registered, events, vs, i);
  }

  /** The counters of the state say how many packets were checked in its window. */
  ghost predicate CountersRight(registered: nat, events: seq<Event>, vs: seq<Verdict>, n: nat, s: State)
    requires n <= |events| == |vs|
  {
    && s.windowStart == WindowAt(registered, events, vs, n)
    && s.globalCount == |Window(registered, events, vs, n)|
    && (s.globalCount <= SOFT_LIMIT ==>
          forall op :: CountOf(s, CounterKey(op)) == |CountedWith(registered, events, vs, n, op)|)
  }

  lemma KeysAndLimits(a: u8, b: u8)
    ensures CounterKey(a) == CounterKey(b) <==> SameCounter(a, b)
    ensures OpcodeLimit(a) == LimitOf(a)
  {
  }

  /** One counter after a packet. */
  lemma CounterStep(s: State, e: Event, op: u8)
    ensures var (s', v) := Check(s, e.time, e.op);
      var opens := e.time >= s.windowStart + SECOND;
      var own := if CounterKey(e.op) == CounterKey(op) then 1 else 0;
      && s'.windowStart == (if v != TemporaryBan && opens then e.time else s.windowStart)
      && s'.globalCount == (if v == TemporaryBan then s.globalCount else if opens then 1 else s.globalCount + 1)
      && (s'.globalCount <= SOFT_LIMIT ==>
            CountOf(s', CounterKey(op)) == (if v != TemporaryBan && opens then 0 else CountOf(s, CounterKey(op)))
              + (if v == TemporaryBan then 0 else own))
  {
    hide CounterKey, OpcodeLimit;
  }

  lemma CountersStep(registered: nat, events: seq<Event>, vs: seq<Verdict>, i: nat, s: State)
    requires i < |events| == |vs| && CountersRight(registered, events, vs, i, s)
    requires vs[i] == Check(s, events[i].time, events[i].op).1
    ensures CountersRight(registered, events, vs, i + 1, Check(s, events[i].time, events[i].op).0)
  {
    hide Check, Window, CountedWith, CounterKey, OpcodeLimit, SameCounter, CountOf;
    WindowStep(registered, events, vs, i);
    var s' := Check(s, events[i].time, events[i].op).0;
    CounterStep(s, events[i], 0);
    forall op
      ensures s'.globalCount <= SOFT_LIMIT ==>
        CountOf(s', CounterKey(op)) == |CountedWith(registered, events, vs, i + 1, op)|
    {
      CounterStep(s, events[i], op);
      CountedStep(registered, events, vs, i, op);
      KeysAndLimits(events[i].op, op);
    }
  }

  /** What an unbanned packet is answered, from the counters after it. */
  lemma VerdictCounted(registered: nat, events: seq<Event>, vs: seq<Verdict>, i: nat, s: State)
    requires i < |events| == |vs| && CountersRight(registered, events, vs, i, s)
    requires vs[i] == Check(s, events[i].time, events[i].op).1 && vs[i] != TemporaryBan
    ensures var n := |Window(registered, events, vs, i + 1)|;
      var m := |CountedWith(registered, events, vs, i + 1, events[i].op)|;
      vs[i] == if n > 300 then CriticalRateExceeded else if n > 100 then GlobalRateExceeded
        else if m > LimitOf(events[i].op) then OpcodeRateExceeded(LimitOf(events[i].op)) else Accept
  {
    hide Window, CountedWith, CounterKey, OpcodeLimit, LimitOf, SameCounter, Violated;
    WindowStep(registered, events, vs, i);
    CountedStep(registered, events, vs, i, events[i].op);
    KeysAndLimits(events[i].op, events[i].op);
  }

  // ------------------------------------------------------------------ bans by counting

  function LastTime(registered: nat, events: seq<Event>, n: nat): nat
    requires n <= |events|
  {
    if n == 0 then registered else events[n - 1].time
  }

  /** The ban of the state is the one of the last third violation, and none is left when it is over. */
  ghost predicate BanRight(registered: nat, events: seq<Event>, vs: seq<Verdict>, n: nat, s: State)
    requires n <= |events| == |vs|
  {
    var bound := if s.banUntil.Some? then s.banUntil.value else LastTime(registered, events, n);
    && s.violations <= 3 && s.violations % 3 == |ViolationsIn(vs, n)| % 3
    && (s.violations == 3 <==> s.banUntil.Some?)
    && (forall j :: 0 <= j < n && Bans(vs, j) ==> events[j].time + BAN_DURATION <= bound)
    && (s.banUntil.Some? ==> exists j :: 0 <= j < n && Bans(vs, j) && events[j].time + BAN_DURATION == bound)
  }

  lemma ViolationsStep(vs: seq<Verdict>, i: nat)
    requires i < |vs|
    ensures i !in ViolationsIn(vs, i)
    ensures ViolationsIn(vs, i + 1) == if IsViolation(vs[i]) then ViolationsIn(vs, i) + {i} else ViolationsIn(vs, i)
    ensures i in ViolationsIn(vs, i + 1) <==> IsViolation(vs[i])
  {
  }

  lemma BanStep(registered: nat, events: seq<Event>, vs: seq<Verdict>, i: nat, s: State)
    requires i < |events| == |vs| && Monotone(registered, events) && BanRight(registered, events, vs, i, s)
    requires vs[i] == Check(s, events[i].time, events[i].op).1
    ensures BanRight(registered, events, vs, i + 1, Check(s, events[i].time, events[i].op).0)
    ensures vs[i] == TemporaryBan <==> BannedAt(events, vs, i)
  {
    hide ViolationsIn, CounterKey, OpcodeLimit, CountOf;
    ViolationsStep(vs, i);
    var s', e := Check(s, events[i].time, events[i].op).0, events[i];
    assert LastTime(registered, events, i) <= e.time == LastTime(registered, events, i + 1);
  }

  lemma {:induction false} RunCounted(registered: nat, events: seq<Event>, vs: seq<Verdict>, n: nat)
    requires n <= |events| == |vs| && IsRun(registered, events, vs) && Monotone(registered, events)
    ensures CountersRight(registered, events, vs, n, StateAt(registered, events, n))
    ensures BanRight(registered, events, vs, n, StateAt(registered, events, n))
  {
    hide Check, CountersRight, BanRight, IsRun, Monotone, StateAt;
    if n == 0 {
      NothingCounted(registered, events, vs);
    } else {
      RunStep(registered, events, vs, n - 1);
      RunCounted(registered, events, vs, n - 1);
      CountersStep(registered, events, vs, n - 1, StateAt(registered, events, n - 1));
      BanStep(registered, events, vs, n - 1, StateAt(registered, events, n - 1));
    }
  }

  lemma NothingCounted(registered: nat, events: seq<Event>, vs: seq<Verdict>)
    requires |vs| == |events|
    ensures CountersRight(registered, events, vs, 0, StateAt(registered, events, 0))
    ensures BanRight(registered, events, vs, 0, StateAt(registered, events, 0))
  {
    assert ViolationsIn(vs, 0) == {} && Window(registered, events, vs, 0) == {};
    assert forall op :: CountedWith(registered, events, vs, 0, op) == {};
  }

  /** Every verdict of every run, by counting packets: within 300 seconds of a third violation the
    * ban; else, of the packets checked in the window, this one and those refused included, more than
    * 300 disconnect, more than 100 refuse the packet, and among the first 100 those with the same
    * counter refuse it beyond their limit; all others are accepted. */
  lemma {:induction false} VerdictsByCounting(registered: nat, events: seq<Event>, i: nat)
    requires Monotone(registered, events) && i < |events|
    ensures var vs := Verdicts(NewState(registered), events);
      var n := |Window(registered, events, vs, i + 1)|;
      var m := |CountedWith(registered, events, vs, i + 1, events[i].op)|;
      vs[i] == if BannedAt(events, vs, i) then TemporaryBan
        else if n > 300 then CriticalRateExceeded
        else if n > 100 then GlobalRateExceeded
        else if m > LimitOf(events[i].op) then OpcodeRateExceeded(LimitOf(events[i].op))
        else Accept
  {
    hide Check, CountersRight, BanRight, BannedAt, Verdicts, Window, CountedWith, IsRun, StateAt, Monotone;
    var vs := Verdicts(NewState(registered), events);
    VerdictsAreRun(registered, events);
    RunStep(registered, events, vs, i);
    RunCounted(registered, events, vs, i);
    BanStep(registered, events, vs, i, StateAt(registered, events, i));
    if vs[i] != TemporaryBan {
      VerdictCounted(registered, events, vs, i, StateAt(registered, events, i));
    }
  }

  // ------------------------------------------------------------- runs of connections

  /** The accept loop takes a connection up, or a session that was taken up ends. */
  datatype Traffic = Connect(ip: Ip) | Disconnect(ip: Ip)

  /** The counts, and the connections that are really open. */
  datatype Server = Server(counts: Counts, live: multiset<Ip>)

  predicate Admitted(s: Server, ip: Ip) { Connections(s.counts, ip) < MAX_CONNECTIONS_PER_IP }

  function Served(s: Server, t: Traffic): Server
  {
    match t
    case Connect(ip) => Server(Opened(s.counts, ip), if Admitted(s, ip) then s.live + multiset{ip} else s.live)
    case Disconnect(ip) => if ip in s.live then Server(Closed(s.counts, ip), s.live - multiset{ip}) else s
  }

  function ServedAll(s: Server, traffic: seq<Traffic>): Server
  {
    if traffic == [] then s else Served(ServedAll(s, traffic[..|traffic| - 1]), traffic[|traffic| - 1])
  }

  ghost predicate CountsLive(s: Server)
  {
    forall ip :: Connections(s.counts, ip) == s.live[ip] <= 5
      && (ip in s.counts <==> s.live[ip] > 0)
  }

  /** In every run of the server each address has exactly its open connections counted, never
    * more than the maximum, and no entry when it has none; so a connection is admitted
    * exactly when fewer than the maximum are open. */
  lemma {:induction false} ConnectionsBounded(traffic: seq<Traffic>)
    ensures CountsLive(ServedAll(Server(map[], multiset{}), traffic))
  {
    if traffic != [] {
      ConnectionsBounded(traffic[..|traffic| - 1]);
    }
  }

  lemma AdmittedExactly(traffic: seq<Traffic>, ip: Ip)
    ensures var s := ServedAll(Server(map[], multiset{}), traffic);
      Admitted(s, ip) <==> s.live[ip] < 5
  {
    hide ServedAll;
    ConnectionsBounded(traffic);
  }
}
