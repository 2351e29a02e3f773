/**
 The accept loop, the connection limiter and the shared counters. Every action below is one atomic
 operation of the accept loop or of a connection task; a schedule interleaves them in any order.
 */
module Limiter {
  import opened Basics

  const MAX_CONNECTIONS_LIMIT := 1_000_000

  /** Where the accept loop is between its atomic operations. */
  datatype LoopPhase = Waiting | Accepted | Rejecting | HoldsPermit | TotalCounted | ActiveCounted | Stopped

  datatype Action =
    | Accept
    | TryAcquire
    | CountRejection
    | CountTotal
    | CountActive
    | Spawn
    | Shutdown
    | Dispatch(id: nat, socks5: bool)
    | DropGuard(id: nat)
    | DropPermit(id: nat)
    | Add(id: nat, meter: Meter, n: u64)

  /** The counters that tasks only ever add to, in the order in which a snapshot loads them. */
  datatype Meter =
    TcpUp | TcpDown | UdpSessions | UdpIn | UdpOut | ConnectFailures | AuthFailures | RelayFailures

  const METERS := 8

  function Slot(m: Meter): (i: nat)
    ensures i < METERS
  {
    match m
    case TcpUp => 0
    case TcpDown => 1
    case UdpSessions => 2
    case UdpIn => 3
    case UdpOut => 4
    case ConnectFailures => 5
    case AuthFailures => 6
    case RelayFailures => 7
  }

  type Meters = s: seq<u64> | |s| == METERS witness [0, 0, 0, 0, 0, 0, 0, 0]

  type Sums = s: seq<nat> | |s| == METERS witness [0, 0, 0, 0, 0, 0, 0, 0]

  const ZEROS: Meters := [0, 0, 0, 0, 0, 0, 0, 0]

  /** The counters of the statistics object. */
  datatype Counters = Counters(total: u64, active: u64, socks5: u64, http: u64, rejections: u64, meters: Meters)

  /** What has happened, counted without bound. */
  datatype History = History(accepted: nat, finished: nat, refused: nat, socks5: nat, http: nat, added: Sums)

  /**
   Tasks are numbered as they are spawned. `live` tasks hold their guard and their permit, `closing`
   tasks have dropped the guard and still hold the permit; `dispatched` tasks have seen a first byte.
   */
  datatype Server = Server(
    permits: nat,
    phase: LoopPhase,
    spawned: nat,
    live: set<nat>,
    closing: set<nat>,
    dispatched: set<nat>,
    counters: Counters,
    history: History)

  function Fresh(max: nat): Server {
    Server(max, Waiting, 0, {}, {}, {}, Counters(0, 0, 0, 0, 0, ZEROS), History(0, 0, 0, 0, 0, ZEROS))
  }

  /** One atomic operation; an operation that is not next for its thread changes nothing. */
  function Step(s: Server, a: Action): Server {
    var c, h := s.counters, s.history;
    match a
    case Accept =>
      if !s.phase.Waiting? then s else s.(phase := Accepted, history := h.(accepted := h.accepted + 1))
    case TryAcquire =>
      if !s.phase.Accepted? then s
      else if s.permits == 0 then s.(phase := Rejecting)
      else s.(phase := HoldsPermit, permits := s.permits - 1)
    case CountRejection =>
      if !s.phase.Rejecting? then s
      else s.(phase := Waiting, counters := c.(rejections := FetchAdd(c.rejections, 1)),
              history := h.(refused := h.refused + 1))
    case CountTotal =>
      if !s.phase.HoldsPermit? then s else s.(phase := TotalCounted, counters := c.(total := FetchAdd(c.total, 1)))
    case CountActive =>
      if !s.phase.TotalCounted? then s else s.(phase := ActiveCounted, counters := c.(active := FetchAdd(c.active, 1)))
    case Spawn =>
      if !s.phase.ActiveCounted? then s
      else s.(phase := Waiting, live := s.live + {s.spawned}, spawned := s.spawned + 1)
    case Shutdown =>
      if !s.phase.Waiting? then s else s.(phase := Stopped)
    case Dispatch(id, socks5) =>
      if id !in s.live || id in s.dispatched then s
      else if socks5 then
        s.(dispatched := s.dispatched + {id}, counters := c.(socks5 := FetchAdd(c.socks5, 1)),
           history := h.(socks5 := h.socks5 + 1))
      else
        s.(dispatched := s.dispatched + {id}, counters := c.(http := FetchAdd(c.http, 1)),
           history := h.(http := h.http + 1))
    case DropGuard(id) =>
      if id !in s.live then s
      else s.(live := s.live - {id}, closing := s.closing + {id}, counters := c.(active := FetchAdd(c.active, -1)))
    case DropPermit(id) =>
      if id !in s.closing then s
      else s.(closing := s.closing - {id}, permits := s.permits + 1, history := h.(finished := h.finished + 1))
    case Add(id, meter, n) =>
      if id !in s.live then s
      else
        var i := Slot(meter);
        s.(counters := c.(meters := c.meters[i := FetchAdd(c.meters[i], n)]),
           history := h.(added := h.added[i := h.added[i] + n]))
  }

  function Run(s: Server, schedule: seq<Action>): Server
    decreases |schedule|
  {
    if schedule == [] then s else Run(Step(s, schedule[0]), schedule[1..])
  }

  lemma {:induction false} RunAppend(s: Server, a: seq<Action>, b: seq<Action>)
    ensures Run(s, a + b) == Run(Run(s, a), b)
    decreases |a|
  {
    hide Step;
    if a == [] {
      assert a + b == b;
    } else {
      assert (a + b)[1..] == a[1..] + b;
      RunAppend(Step(s, a[0]), a[1..], b);
    }
  }

  lemma RunLast(s: Server, schedule: seq<Action>, a: Action)
    ensures Run(s, schedule + [a]) == Step(Run(s, schedule), a)
  {
    hide Step;
    RunAppend(s, schedule, [a]);
    assert [a][1..] == [];
  }

  // ----- the invariant

  /** The accept loop holds a permit that no task has yet. */
  function LoopHolds(s: Server): nat {
    if s.phase in {HoldsPermit, TotalCounted, ActiveCounted} then 1 else 0
  }

  function Held(s: Server): nat {
    |s.live| + |s.closing| + LoopHolds(s)
  }

  function Active(s: Server): nat {
    |s.live| + if s.phase.ActiveCounted? then 1 else 0
  }

  /** Connections that were counted: finished, running, or about to be spawned. */
  function Total(s: Server): nat {
    s.history.finished + |s.live| + |s.closing| + if s.phase in {TotalCounted, ActiveCounted} then 1 else 0
  }

  function InFlight(s: Server): nat {
    if s.phase in {Waiting, Stopped} then 0 else 1
  }

  /** Permits are conserved, and every connection is somewhere. */
  ghost predicate Conserved(max: nat, s: Server) {
    && s.permits + Held(s) == max
    && s.history.accepted == s.history.finished + |s.live| + |s.closing| + s.history.refused + InFlight(s)
    && s.spawned == s.history.finished + |s.live| + |s.closing|
    && s.history.socks5 + s.history.http == |s.dispatched|
    && (forall id :: id in s.live || id in s.closing || id in s.dispatched ==> id < s.spawned)
    && s.live !! s.closing
  }

  /** The counters show the history, modulo their width; the active counter is exact. */
  ghost predicate Counted(s: Server) {
    && s.counters.active == Active(s)
    && s.counters.total == Total(s) % U64_RANGE
    && s.counters.rejections == s.history.refused % U64_RANGE
    && s.counters.socks5 == s.history.socks5 % U64_RANGE
    && s.counters.http == s.history.http % U64_RANGE
    && forall i :: 0 <= i < METERS ==> s.counters.meters[i] == s.history.added[i] % U64_RANGE
  }

  ghost predicate Inv(max: nat, s: Server) {
    Conserved(max, s) && Counted(s)
  }

  lemma {:induction false} BelowBound(ids: set<nat>, n: nat)
    requires forall id :: id in ids ==> id < n
    ensures |ids| <= n
  {
    if n == 0 {
      assert ids == {};
    } else {
      BelowBound(ids - {n - 1}, n - 1);
    }
  }

  /** Operations of the accept loop that start no task. */
  lemma LoopConserves(max: nat, s: Server, a: Action)
    requires Conserved(max, s)
    requires !a.Spawn? && !a.Dispatch? && !a.DropGuard? && !a.DropPermit?
    ensures Conserved(max, Step(s, a))
  {
    hide FetchAdd;
  }

  lemma SpawnConserves(max: nat, s: Server)
    requires Conserved(max, s)
    ensures Conserved(max, Step(s, Spawn))
  {
    hide FetchAdd;
    assert s.spawned !in s.live && s.spawned !in s.closing;
  }

  lemma DispatchConserves(max: nat, s: Server, id: nat, socks5: bool)
    requires Conserved(max, s)
    ensures Conserved(max, Step(s, Dispatch(id, socks5)))
  {
    hide FetchAdd;
  }

  lemma DropGuardConserves(max: nat, s: Server, id: nat)
    requires Conserved(max, s)
    ensures Conserved(max, Step(s, DropGuard(id)))
  {
    hide FetchAdd;
    if id in s.live {
      assert id !in s.closing;
      assert |s.live - {id}| == |s.live| - 1 && |s.closing + {id}| == |s.closing| + 1;
    }
  }

  lemma DropPermitConserves(max: nat, s: Server, id: nat)
    requires Conserved(max, s)
    ensures Conserved(max, Step(s, DropPermit(id)))
  {
    hide FetchAdd;
    if id in s.closing {
      assert |s.closing - {id}| == |s.closing| - 1;
    }
  }

  lemma StepConserves(max: nat, s: Server, a: Action)
    requires Conserved(max, s)
    ensures Conserved(max, Step(s, a))
  {
    hide Conserved, Step;
    match a
    case Spawn => SpawnConserves(max, s);
    case Dispatch(id, socks5) => DispatchConserves(max, s, id, socks5);
    case DropGuard(id) => DropGuardConserves(max, s, id);
    case DropPermit(id) => DropPermitConserves(max, s, id);
    case _ => LoopConserves(max, s, a);
  }

  /** A counter that wraps around still shows what was added, modulo its width. */
  lemma NextCount(n: nat, more: nat)
    ensures FetchAdd(n % U64_RANGE, more) == (n + more) % U64_RANGE
  {
    WholeTurns(n % U64_RANGE + more, n / U64_RANGE);
  }

  lemma NextActive(s: Server)
    requires Active(s) <= MAX_CONNECTIONS_LIMIT
    ensures FetchAdd(Active(s), 1) == Active(s) + 1
    ensures Active(s) > 0 ==> FetchAdd(Active(s), -1) == Active(s) - 1
  {
  }

  lemma GuardCounts(s: Server, id: nat)
    requires Counted(s) && Active(s) <= MAX_CONNECTIONS_LIMIT && s.live !! s.closing
    ensures Counted(Step(s, DropGuard(id)))
  {
    NextActive(s);
    hide FetchAdd;
    if id in s.live {
      assert |s.live - {id}| == |s.live| - 1 && |s.closing + {id}| == |s.closing| + 1;
    }
  }

  lemma DispatchCounts(s: Server, id: nat, socks5: bool)
    requires Counted(s)
    ensures Counted(Step(s, Dispatch(id, socks5)))
  {
    NextCount(s.history.socks5, 1);
    NextCount(s.history.http, 1);
    hide FetchAdd;
  }

  lemma PermitCounts(s: Server, id: nat)
    requires Counted(s)
    ensures Counted(Step(s, DropPermit(id)))
  {
    if id in s.closing {
      assert |s.closing - {id}| == |s.closing| - 1;
    }
  }

  lemma SpawnCounts(s: Server)
    requires Counted(s) && s.spawned !in s.live
    ensures Counted(Step(s, Spawn))
  {
    assert |s.live + {s.spawned}| == |s.live| + 1;
  }

  lemma AddCounts(s: Server, id: nat, meter: Meter, n: u64)
    requires Counted(s)
    ensures Counted(Step(s, Add(id, meter, n)))
  {
    NextCount(s.history.added[Slot(meter)], n);
    hide FetchAdd, Slot;
  }

  lemma LoopCounts(s: Server, a: Action)
    requires Counted(s) && Active(s) <= MAX_CONNECTIONS_LIMIT
    requires !a.Spawn? && !a.Dispatch? && !a.DropGuard? && !a.DropPermit? && !a.Add?
    ensures Counted(Step(s, a))
  {
    NextActive(s);
    NextCount(Total(s), 1);
    NextCount(s.history.refused, 1);
    hide FetchAdd;
  }

  lemma StepCounts(max: nat, s: Server, a: Action)
    requires Conserved(max, s) && Counted(s) && max <= MAX_CONNECTIONS_LIMIT
    ensures Counted(Step(s, a))
  {
    assert Active(s) <= max && s.live !! s.closing && s.spawned !in s.live;
    hide Conserved, Counted, Step, Active;
    match a
    case DropGuard(id) => GuardCounts(s, id);
    case Spawn => SpawnCounts(s);
    case DropPermit(id) => PermitCounts(s, id);
    case Dispatch(id, socks5) => DispatchCounts(s, id, socks5);
    case Add(id, meter, n) => AddCounts(s, id, meter, n);
    case _ => LoopCounts(s, a);
  }

  lemma StepKeepsInv(max: nat, s: Server, a: Action)
    requires Inv(max, s) && max <= MAX_CONNECTIONS_LIMIT
    ensures Inv(max, Step(s, a))
  {
    StepConserves(max, s, a);
    StepCounts(max, s, a);
  }

  /** The invariant holds in every state of every interleaving. */
  lemma {:induction false} RunKeepsInv(max: nat, s: Server, schedule: seq<Action>)
    requires Inv(max, s) && max <= MAX_CONNECTIONS_LIMIT
    ensures Inv(max, Run(s, schedule))
    decreases |schedule|
  {
    hide Inv, Step;
    if schedule != [] {
      StepKeepsInv(max, s, schedule[0]);
      RunKeepsInv(max, Step(s, schedule[0]), schedule[1..]);
    }
  }

  lemma FreshInv(max: nat)
    ensures Inv(max, Fresh(max))
  {
  }

  /**
   Permits are conserved and the active counter never exceeds the permits in use, so it stays within
   the limit; counted connections are the finished and the running ones.
   */
  lemma LimiterIsSafe(max: nat, schedule: seq<Action>)
    requires max <= MAX_CONNECTIONS_LIMIT
    ensures var s := Run(Fresh(max), schedule);
      && s.permits + Held(s) == max
      && s.counters.active <= Held(s) <= max
      && s.counters.total == Total(s) % U64_RANGE
      && s.history.accepted == s.history.finished + |s.live| + |s.closing| + s.history.refused + InFlight(s)
      && s.history.socks5 + s.history.http <= s.spawned <= Total(s)
  {
    FreshInv(max);
    RunKeepsInv(max, Fresh(max), schedule);
    BelowBound(Run(Fresh(max), schedule).dispatched, Run(Fresh(max), schedule).spawned);
  }

  /** When a guard is dropped the active counter is positive: the decrement never wraps. */
  lemma DecrementNeverWraps(max: nat, schedule: seq<Action>, id: nat)
    requires max <= MAX_CONNECTIONS_LIMIT && id in Run(Fresh(max), schedule).live
    ensures var s := Run(Fresh(max), schedule);
            s.counters.active >= 1 && Step(s, DropGuard(id)).counters.active == s.counters.active - 1
  {
    FreshInv(max);
    RunKeepsInv(max, Fresh(max), schedule);
  }

  /** A connection is turned away only while all permits are held by tasks. */
  lemma RefusedOnlyWhenFull(max: nat, schedule: seq<Action>)
    requires max <= MAX_CONNECTIONS_LIMIT
    requires Run(Fresh(max), schedule).phase.Accepted?
    ensures var s := Run(Fresh(max), schedule);
            Step(s, TryAcquire).phase.Rejecting? <==> |s.live| + |s.closing| == max
  {
    FreshInv(max);
    RunKeepsInv(max, Fresh(max), schedule);
  }

  /** Once the loop rests and no task is left, every permit is back and nothing counts as active. */
  lemma Drained(max: nat, schedule: seq<Action>)
    requires max <= MAX_CONNECTIONS_LIMIT
    requires var s := Run(Fresh(max), schedule);
             s.phase in {Waiting, Stopped} && s.live == {} && s.closing == {}
    ensures var s := Run(Fresh(max), schedule);
      && s.permits == max && s.counters.active == 0
      && s.counters.total == (s.history.accepted - s.history.refused) % U64_RANGE
      && s.counters.rejections == s.history.refused % U64_RANGE
  {
    FreshInv(max);
    RunKeepsInv(max, Fresh(max), schedule);
  }

  // ----- snapshots read the counters one by one while everything moves

  function At(max: nat, schedule: seq<Action>, i: nat): Server
    requires i <= |schedule|
  {
    Run(Fresh(max), schedule[..i])
  }

  /** `later` happened after `earlier`: no history count went down. */
  ghost predicate Grown(earlier: Server, later: Server) {
    && earlier.history.socks5 <= later.history.socks5 && earlier.history.http <= later.history.http
    && earlier.history.refused <= later.history.refused && earlier.spawned <= later.spawned
    && Total(earlier) <= Total(later)
    && forall i :: 0 <= i < METERS ==> earlier.history.added[i] <= later.history.added[i]
  }

  lemma StepGrows(max: nat, s: Server, a: Action)
    requires Inv(max, s)
    ensures Grown(s, Step(s, a))
  {
    StepConserves(max, s, a);
    TotalIsStarted(max, s);
    TotalIsStarted(max, Step(s, a));
    MetersGrow(s, a);
    hide FetchAdd, Counted, Conserved, Total, Slot;
    hide METERS;
  }

  lemma MetersGrow(s: Server, a: Action)
    ensures forall i :: 0 <= i < METERS ==> s.history.added[i] <= Step(s, a).history.added[i]
  {
    hide FetchAdd, Slot;
  }

  lemma TotalIsStarted(max: nat, s: Server)
    requires Conserved(max, s)
    ensures Total(s) == s.spawned + if s.phase in {TotalCounted, ActiveCounted} then 1 else 0
  {
  }

  lemma {:induction false} RunGrows(max: nat, s: Server, schedule: seq<Action>)
    requires Inv(max, s) && max <= MAX_CONNECTIONS_LIMIT
    ensures Grown(s, Run(s, schedule))
    decreases |schedule|
  {
    hide Inv, Step, Total;
    if schedule != [] {
      StepKeepsInv(max, s, schedule[0]);
      StepGrows(max, s, schedule[0]);
      RunGrows(max, Step(s, schedule[0]), schedule[1..]);
    }
  }

  lemma AtGrows(max: nat, schedule: seq<Action>, i: nat, j: nat)
    requires max <= MAX_CONNECTIONS_LIMIT && i <= j <= |schedule|
    ensures Inv(max, At(max, schedule, i)) && Inv(max, At(max, schedule, j))
    ensures Grown(At(max, schedule, i), At(max, schedule, j))
  {
    hide Inv, Step, Grown;
    assert schedule[..j] == schedule[..i] + schedule[i..j];
    RunAppend(Fresh(max), schedule[..i], schedule[i..j]);
    FreshInv(max);
    RunKeepsInv(max, Fresh(max), schedule[..i]);
    RunKeepsInv(max, Fresh(max), schedule[..j]);
    RunGrows(max, At(max, schedule, i), schedule[i..j]);
  }

  /** A reading of the counters: each field at its own moment, in the order of the loads. */
  datatype Readings = Readings(total: nat, active: nat, socks5: nat, http: nat, rejections: nat, meters: Sums)

  ghost predicate InOrder(r: Readings, from: nat, to: nat) {
    && from <= r.total <= r.active <= r.socks5 <= r.http <= r.rejections <= to
    && (forall i :: 0 <= i < METERS ==> r.rejections <= r.meters[i] <= to)
    && (forall i, j :: 0 <= i < j < METERS ==> r.meters[i] <= r.meters[j])
  }

  function Snapshot(max: nat, schedule: seq<Action>, r: Readings): Counters
    requires InOrder(r, 0, |schedule|)
  {
    Counters(At(max, schedule, r.total).counters.total, At(max, schedule, r.active).counters.active,
             At(max, schedule, r.socks5).counters.socks5, At(max, schedule, r.http).counters.http,
             At(max, schedule, r.rejections).counters.rejections,
             seq(METERS, i requires 0 <= i < METERS => At(max, schedule, r.meters[i]).counters.meters[i]))
  }

  /** No counter has wrapped around. */
  ghost predicate Unwrapped(s: Server) {
    && Total(s) < U64_RANGE && s.history.refused < U64_RANGE
    && forall i :: 0 <= i < METERS ==> s.history.added[i] < U64_RANGE
  }

  /** The counter lies between the values it had at the two ends. */
  ghost predicate Between(before: Counters, c: Counters, after: Counters) {
    && before.total <= c.total <= after.total
    && before.socks5 <= c.socks5 <= after.socks5
    && before.http <= c.http <= after.http
    && before.rejections <= c.rejections <= after.rejections
    && forall i :: 0 <= i < METERS ==> before.meters[i] <= c.meters[i] <= after.meters[i]
  }

  /** The counters at one moment between two others. */
  lemma MomentIsBounded(max: nat, schedule: seq<Action>, from: nat, moment: nat, to: nat)
    requires max <= MAX_CONNECTIONS_LIMIT && from <= moment <= to <= |schedule| && Unwrapped(At(max, schedule, to))
    ensures Between(At(max, schedule, from).counters, At(max, schedule, moment).counters,
                    At(max, schedule, to).counters)
    ensures At(max, schedule, moment).counters.active <= max
    ensures var c := At(max, schedule, to).counters;
            c.socks5 + c.http <= c.total
  {
    AtGrows(max, schedule, from, moment);
    AtGrows(max, schedule, moment, to);
    hide At, Step, Inv, Total;
    CountersAreExact(max, At(max, schedule, from));
    CountersAreExact(max, At(max, schedule, moment));
    CountersAreExact(max, At(max, schedule, to));
  }

  /**
   A snapshot taken while `schedule` moves from position `from` to position `to`: every monotone
   counter lies between its values at the two ends, and the active count is within the limit.
   */
  lemma SnapshotIsBounded(max: nat, schedule: seq<Action>, r: Readings, from: nat, to: nat)
    requires max <= MAX_CONNECTIONS_LIMIT && from <= to <= |schedule| && InOrder(r, from, to)
    requires Unwrapped(At(max, schedule, to))
    ensures var snap, after := Snapshot(max, schedule, r), At(max, schedule, to).counters;
      && Between(At(max, schedule, from).counters, snap, after)
      && snap.active <= max
      && snap.socks5 + snap.http <= after.total
  {
    hide At, Unwrapped;
    MomentIsBounded(max, schedule, from, r.total, to);
    MomentIsBounded(max, schedule, from, r.active, to);
    MomentIsBounded(max, schedule, from, r.socks5, to);
    MomentIsBounded(max, schedule, from, r.http, to);
    MomentIsBounded(max, schedule, from, r.rejections, to);
    forall i | 0 <= i < METERS
      ensures At(max, schedule, from).counters.meters[i] <= At(max, schedule, r.meters[i]).counters.meters[i]
                <= At(max, schedule, to).counters.meters[i]
    {
      MomentIsBounded(max, schedule, from, r.meters[i], to);
    }
  }

  /** Below the width of the counters they are the history itself. */
  lemma CountersAreExact(max: nat, s: Server)
    requires Inv(max, s) && Unwrapped(s)
    ensures var c := s.counters;
      && c.total == Total(s) && c.rejections == s.history.refused && c.active <= max
      && c.socks5 == s.history.socks5 && c.http == s.history.http && c.socks5 + c.http <= c.total
      && forall i :: 0 <= i < METERS ==> c.meters[i] == s.history.added[i]
  {
    BelowBound(s.dispatched, s.spawned);
  }

  // ----- when a snapshot is consistent

  /** How many connections the schedule dispatches to one protocol. */
  function Dispatches(s: Server, schedule: seq<Action>, socks5: bool): nat
    decreases |schedule|
  {
    if schedule == [] then 0
    else
      var a := schedule[0];
      (if a.Dispatch? && a.socks5 == socks5 && a.id in s.live && a.id !in s.dispatched then 1 else 0)
      + Dispatches(Step(s, a), schedule[1..], socks5)
  }

  /** How many connections the schedule adds to the total. */
  function Starts(s: Server, schedule: seq<Action>): nat
    decreases |schedule|
  {
    if schedule == [] then 0
    else
      (if schedule[0].CountTotal? && s.phase.HoldsPermit? then 1 else 0)
      + Starts(Step(s, schedule[0]), schedule[1..])
  }

  /** Connections in the total that no protocol counter shows yet, or that end without ever being in one. */
  function Unseen(s: Server): int {
    Total(s) - |s.dispatched|
  }

  lemma StepCounted(max: nat, s: Server, a: Action)
    requires Conserved(max, s)
    ensures Step(s, a).history.socks5 == s.history.socks5 + Dispatches(s, [a], true)
    ensures Step(s, a).history.http == s.history.http + Dispatches(s, [a], false)
    ensures Total(Step(s, a)) == Total(s) + Starts(s, [a])
  {
    StepConserves(max, s, a);
    TotalIsStarted(max, s);
    TotalIsStarted(max, Step(s, a));
    assert [a][1..] == [];
    hide FetchAdd, Conserved, Total, Slot;
  }

  /** The history counts exactly what took effect. */
  lemma {:induction false} RunCounted(max: nat, s: Server, schedule: seq<Action>)
    requires Inv(max, s) && max <= MAX_CONNECTIONS_LIMIT
    ensures Run(s, schedule).history.socks5 == s.history.socks5 + Dispatches(s, schedule, true)
    ensures Run(s, schedule).history.http == s.history.http + Dispatches(s, schedule, false)
    ensures Total(Run(s, schedule)) == Total(s) + Starts(s, schedule)
    decreases |schedule|
  {
    if schedule != [] {
      var a := schedule[0];
      StepKeepsInv(max, s, a);
      StepCounted(max, s, a);
      assert [a][1..] == [];
      hide Step, Counted, Conserved, Total;
      RunCounted(max, Step(s, a), schedule[1..]);
    }
  }

  lemma AtCounted(max: nat, schedule: seq<Action>, i: nat, j: nat)
    requires max <= MAX_CONNECTIONS_LIMIT && i <= j <= |schedule|
    ensures var s, t := At(max, schedule, i), At(max, schedule, j);
      && t.history.socks5 == s.history.socks5 + Dispatches(s, schedule[i..j], true)
      && t.history.http == s.history.http + Dispatches(s, schedule[i..j], false)
      && Total(t) == Total(s) + Starts(s, schedule[i..j])
  {
    hide Inv, Step, Total;
    assert schedule[..j] == schedule[..i] + schedule[i..j];
    RunAppend(Fresh(max), schedule[..i], schedule[i..j]);
    FreshInv(max);
    RunKeepsInv(max, Fresh(max), schedule[..i]);
    RunCounted(max, At(max, schedule, i), schedule[i..j]);
  }

  /** How many connections the schedule turns away. */
  function Refusals(s: Server, schedule: seq<Action>): nat
    decreases |schedule|
  {
    if schedule == [] then 0
    else
      (if schedule[0].CountRejection? && s.phase.Rejecting? then 1 else 0)
      + Refusals(Step(s, schedule[0]), schedule[1..])
  }

  /** What running tasks add to one counter. */
  function Additions(s: Server, schedule: seq<Action>, meter: Meter): nat
    decreases |schedule|
  {
    if schedule == [] then 0
    else
      var a := schedule[0];
      (if a.Add? && a.meter == meter && a.id in s.live then a.n else 0)
      + Additions(Step(s, a), schedule[1..], meter)
  }

  lemma StepAdds(s: Server, a: Action, meter: Meter)
    ensures Step(s, a).history.refused == s.history.refused + Refusals(s, [a])
    ensures Step(s, a).history.added[Slot(meter)] == s.history.added[Slot(meter)] + Additions(s, [a], meter)
  {
    hide FetchAdd;
    assert [a][1..] == [];
  }

  /** Refusals and additions are all counted, each to its own counter. */
  lemma {:induction false} RunAdds(s: Server, schedule: seq<Action>, meter: Meter)
    ensures Run(s, schedule).history.refused == s.history.refused + Refusals(s, schedule)
    ensures Run(s, schedule).history.added[Slot(meter)] == s.history.added[Slot(meter)] + Additions(s, schedule, meter)
    decreases |schedule|
  {
    if schedule != [] {
      var a := schedule[0];
      StepAdds(s, a, meter);
      assert [a][1..] == [];
      hide Step;
      RunAdds(Step(s, a), schedule[1..], meter);
    }
  }

  /**
   After any schedule every counter shows, modulo its width, exactly what took effect: dispatches by
   protocol, starts, refusals, and what running tasks added.
   */
  lemma CountersShowWhatHappened(max: nat, schedule: seq<Action>, meter: Meter)
    requires max <= MAX_CONNECTIONS_LIMIT
    ensures var s, c := Fresh(max), Run(Fresh(max), schedule).counters;
      && c.total == Starts(s, schedule) % 0x1_0000_0000_0000_0000
      && c.socks5 == Dispatches(s, schedule, true) % 0x1_0000_0000_0000_0000
      && c.http == Dispatches(s, schedule, false) % 0x1_0000_0000_0000_0000
      && c.rejections == Refusals(s, schedule) % 0x1_0000_0000_0000_0000
      && c.meters[Slot(meter)] == Additions(s, schedule, meter) % 0x1_0000_0000_0000_0000
  {
    FreshInv(max);
    RunKeepsInv(max, Fresh(max), schedule);
    RunCounted(max, Fresh(max), schedule);
    RunAdds(Fresh(max), schedule, meter);
    hide Run, Step, Starts, Dispatches, Refusals, Additions, Conserved;
  }

  /** What the accept loop does with a connection, one operation after the other. */
  const SERVED: seq<Action> := [TryAcquire, CountTotal, CountActive, Spawn]

  const TURNED_AWAY: seq<Action> := [TryAcquire, CountRejection]

  /**
   The accept loop always gets on: an accepted connection is started in four operations while a permit
   is free and turned away in two otherwise, and then the loop waits for the next one.
   */
  lemma AcceptedIsServed(max: nat, s: Server)
    requires Inv(max, s) && s.phase.Waiting?
    ensures var accepted := Step(s, Accept);
      if s.permits > 0 then
        var t := Run(accepted, SERVED);
        t.phase.Waiting? && s.spawned in t.live && t.spawned == s.spawned + 1 && t.permits == s.permits - 1
        && t.history.accepted == s.history.accepted + 1
      else
        var t := Run(accepted, TURNED_AWAY);
        t.phase.Waiting? && t.live == s.live && t.permits == 0
        && t.history.accepted == s.history.accepted + 1 && t.history.refused == s.history.refused + 1
  {
    hide FetchAdd, Counted;
    var accepted := Step(s, Accept);
    RunFour(accepted, SERVED);
    RunLast(accepted, [TryAcquire], CountRejection);
    RunLast(accepted, [], TryAcquire);
    assert TURNED_AWAY == [TryAcquire] + [CountRejection] && [] + [TryAcquire] == [TryAcquire];
  }

  /** A started connection always gets to the end: it is counted once by its protocol and gives its permit back. */
  lemma StartedEnds(max: nat, s: Server, id: nat, socks5: bool)
    requires Inv(max, s) && id in s.live && id !in s.dispatched
    ensures var t := Run(s, [Dispatch(id, socks5), Dispatch(id, !socks5), DropGuard(id), DropPermit(id)]);
      && t.live == s.live - {id} && t.closing == s.closing && t.permits == s.permits + 1
      && t.history.finished == s.history.finished + 1
      && t.history.socks5 == s.history.socks5 + (if socks5 then 1 else 0)
      && t.history.http == s.history.http + (if socks5 then 0 else 1)
  {
    hide FetchAdd, Counted;
    assert id !in s.closing;
    RunFour(s, [Dispatch(id, socks5), Dispatch(id, !socks5), DropGuard(id), DropPermit(id)]);
  }

  /** After shutdown nothing more is accepted; the running tasks go on. */
  lemma {:induction false} StoppedAcceptsNothing(s: Server, schedule: seq<Action>)
    requires s.phase.Waiting?
    ensures var t := Run(Step(s, Shutdown), schedule);
            t.phase.Stopped? && t.history.accepted == s.history.accepted && t.spawned == s.spawned
    decreases |schedule|
  {
    StoppedStays(Step(s, Shutdown), schedule);
  }

  lemma {:induction false} StoppedStays(s: Server, schedule: seq<Action>)
    requires s.phase.Stopped?
    ensures var t := Run(s, schedule);
            t.phase.Stopped? && t.history.accepted == s.history.accepted && t.spawned == s.spawned
    decreases |schedule|
  {
    hide FetchAdd, Slot;
    if schedule != [] {
      StoppedStays(Step(s, schedule[0]), schedule[1..]);
    }
  }

  /**
   Exactly when the total of a snapshot covers its own protocol counts: what is dispatched between the
   load of the total and the loads of the two counts does not exceed the connections that were in the
   total already and not yet dispatched.
   */
  lemma SnapshotCoversExactly(max: nat, schedule: seq<Action>, r: Readings)
    requires max <= MAX_CONNECTIONS_LIMIT && InOrder(r, 0, |schedule|) && Unwrapped(At(max, schedule, r.http))
    ensures var snap, s := Snapshot(max, schedule, r), At(max, schedule, r.total);
      snap.socks5 + snap.http <= snap.total <==>
        Dispatches(s, schedule[r.total..r.socks5], true) + Dispatches(s, schedule[r.total..r.http], false) <= Unseen(s)
  {
    SnapshotIsHistory(max, schedule, r);
    AtCounted(max, schedule, r.total, r.socks5);
    AtCounted(max, schedule, r.total, r.http);
    AtGrows(max, schedule, r.total, r.total);
    hide At, Step, Dispatches, Starts, Counted, Total;
  }

  /** The three loads that matter show the history of their moments. */
  lemma SnapshotIsHistory(max: nat, schedule: seq<Action>, r: Readings)
    requires max <= MAX_CONNECTIONS_LIMIT && InOrder(r, 0, |schedule|) && Unwrapped(At(max, schedule, r.http))
    ensures var snap := Snapshot(max, schedule, r);
      && snap.total == Total(At(max, schedule, r.total))
      && snap.socks5 == At(max, schedule, r.socks5).history.socks5
      && snap.http == At(max, schedule, r.http).history.http
  {
    AtGrows(max, schedule, r.total, r.http);
    AtGrows(max, schedule, r.socks5, r.http);
    hide At, Inv, Total;
    CountersAreExact(max, At(max, schedule, r.total));
    CountersAreExact(max, At(max, schedule, r.socks5));
    CountersAreExact(max, At(max, schedule, r.http));
  }

  /**
   A snapshot is short by at most the connections that were added to the total while it was taken. If
   there is none between the load of the total and that of the HTTP count, it is consistent.
   */
  lemma TearIsBounded(max: nat, schedule: seq<Action>, r: Readings)
    requires max <= MAX_CONNECTIONS_LIMIT && InOrder(r, 0, |schedule|) && Unwrapped(At(max, schedule, r.http))
    ensures var snap := Snapshot(max, schedule, r);
            var started := Starts(At(max, schedule, r.total), schedule[r.total..r.http]);
      && snap.socks5 + snap.http <= snap.total + started
      && (started == 0 ==> snap.socks5 + snap.http <= snap.total)
  {
    SnapshotIsHistory(max, schedule, r);
    AtCounted(max, schedule, r.total, r.http);
    AtGrows(max, schedule, r.socks5, r.http);
    hide At, Snapshot, Inv, Total;
    CountersAreExact(max, At(max, schedule, r.http));
  }

  /** A connection that comes, sends the first byte of SOCKS5 and goes. */
  function Visit(id: nat): seq<Action> {
    [Accept, TryAcquire, CountTotal, CountActive] + [Spawn, Dispatch(id, true), DropGuard(id), DropPermit(id)]
  }

  function Visits(n: nat): seq<Action> {
    if n == 0 then [] else Visits(n - 1) + Visit(n - 1)
  }

  /** Nothing is running, and all of `n` connections spoke SOCKS5. */
  ghost predicate Visited(s: Server, n: nat) {
    && s.phase.Waiting? && s.permits >= 1 && s.spawned == n && s.live == {} && s.closing == {}
    && s.history.socks5 == n && s.history.http == 0 && s.history.finished == n && s.history.refused == 0
    && s.history.added == ZEROS
    && n !in s.dispatched && forall id :: id in s.dispatched ==> id < n
  }

  lemma VisitOnce(s: Server, n: nat)
    requires Visited(s, n)
    ensures Visited(Run(s, Visit(n)), n + 1)
  {
    hide FetchAdd, Slot;
    var a, b := [Accept, TryAcquire, CountTotal, CountActive], [Spawn, Dispatch(n, true), DropGuard(n), DropPermit(n)];
    RunAppend(s, a, b);
    RunFour(s, a);
    var t := Run(s, a);
    assert t.phase.ActiveCounted? && t.live == {} && t.spawned == n;
    RunFour(t, b);
  }

  lemma RunFour(s: Server, a: seq<Action>)
    requires |a| == 4
    ensures Run(s, a) == Step(Step(Step(Step(s, a[0]), a[1]), a[2]), a[3])
  {
    hide Step;
    RunLast(s, a[..3], a[3]);
    RunLast(s, a[..2], a[2]);
    RunLast(s, a[..1], a[1]);
    RunLast(s, [], a[0]);
    assert a == a[..3] + [a[3]] && a[..3] == a[..2] + [a[2]] && a[..2] == a[..1] + [a[1]] && a[..1] == [] + [a[0]];
  }

  lemma {:induction false} VisitTimes(max: nat, n: nat)
    requires max >= 1
    ensures Visited(Run(Fresh(max), Visits(n)), n)
  {
    if n > 0 {
      VisitTimes(max, n - 1);
      hide Visited, Visit, Step;
      RunAppend(Fresh(max), Visits(n - 1), Visit(n - 1));
      VisitOnce(Run(Fresh(max), Visits(n - 1)), n - 1);
    }
  }

  /**
   How short a snapshot is has no bound of its own, not even with a single permit: every number of
   connections can come and go between the load of the total and that of the SOCKS5 count.
   */
  lemma SnapshotCanTear(max: nat, n: nat)
    requires 1 <= max <= MAX_CONNECTIONS_LIMIT && n < U64_RANGE
    ensures var k := |Visits(n)|;
            var r := Readings(0, k, k, k, k, seq(METERS, _ => k));
            InOrder(r, 0, k) && Snapshot(max, Visits(n), r).total == 0 && Snapshot(max, Visits(n), r).socks5 == n
  {
    var schedule := Visits(n);
    VisitTimes(max, n);
    assert schedule[..0] == [] && schedule[..|schedule|] == schedule;
    hide Visits, Step;
    FreshInv(max);
    RunKeepsInv(max, Fresh(max), schedule);
  }

  // ----- the server as the program runs it

  class ProxyServer {
    var permits: nat
    var phase: LoopPhase
    var spawned: nat
    var live: set<nat>
    var closing: set<nat>
    var dispatched: set<nat>
    var totalConnections: u64
    var activeConnections: u64
    var socks5Connections: u64
    var httpConnections: u64
    var connectionLimitRejections: u64
    var meters: Meters
    ghost var history: History

    ghost function State(): Server
      reads this
    {
      Server(permits, phase, spawned, live, closing, dispatched,
             Counters(totalConnections, activeConnections, socks5Connections, httpConnections,
                      connectionLimitRejections, meters),
             history)
    }

    constructor (maxConnections: nat)
      ensures State() == Fresh(maxConnections)
    {
      permits, phase, spawned := maxConnections, Waiting, 0;
      live, closing, dispatched := {}, {}, {};
      totalConnections, activeConnections, socks5Connections, httpConnections := 0, 0, 0, 0;
      connectionLimitRejections, meters := 0, ZEROS;
      history := History(0, 0, 0, 0, 0, ZEROS);
    }

    /** `listener.accept()` returned a socket. */
    method AcceptSocket()
      modifies this
      ensures State() == Step(old(State()), Accept)
    {
      if phase.Waiting? {
        phase := Accepted;
        history := history.(accepted := history.accepted + 1);
      }
    }

    /** `try_acquire_owned()` */
    method AcquirePermit()
      modifies this
      ensures State() == Step(old(State()), TryAcquire)
    {
      if phase.Accepted? {
        if permits == 0 {
          phase := Rejecting;
        } else {
          permits := permits - 1;
          phase := HoldsPermit;
        }
      }
    }

    method IncConnectionLimitRejections()
      modifies this
      ensures State() == Step(old(State()), CountRejection)
    {
      if phase.Rejecting? {
        connectionLimitRejections := FetchAdd(connectionLimitRejections, 1);
        history := history.(refused := history.refused + 1);
        phase := Waiting;
      }
    }

    method IncTotalConnections()
      modifies this
      ensures State() == Step(old(State()), CountTotal)
    {
      if phase.HoldsPermit? {
        totalConnections := FetchAdd(totalConnections, 1);
        phase := TotalCounted;
      }
    }

    method IncActiveConnections()
      modifies this
      ensures State() == Step(old(State()), CountActive)
    {
      if phase.TotalCounted? {
        activeConnections := FetchAdd(activeConnections, 1);
        phase := ActiveCounted;
      }
    }

    /** `tokio::spawn`: the permit and the duty to decrement move into the new task. */
    method SpawnTask()
      modifies this
      ensures State() == Step(old(State()), Spawn)
    {
      if phase.ActiveCounted? {
        live := live + {spawned};
        spawned := spawned + 1;
        phase := Waiting;
      }
    }

    method StopAccepting()
      modifies this
      ensures State() == Step(old(State()), Shutdown)
    {
      if phase.Waiting? {
        phase := Stopped;
      }
    }

    /** A task read its first byte. */
    method CountProtocol(id: nat, socks5: bool)
      modifies this
      ensures State() == Step(old(State()), Dispatch(id, socks5))
    {
      if id in live && id !in dispatched {
        dispatched := dispatched + {id};
        if socks5 {
          socks5Connections := FetchAdd(socks5Connections, 1);
          history := history.(socks5 := history.socks5 + 1);
        } else {
          httpConnections := FetchAdd(httpConnections, 1);
          history := history.(http := history.http + 1);
        }
      }
    }

    /** `ActiveGuard::drop`; guards are dropped before permits because they are declared after them. */
    method DropActiveGuard(id: nat)
      modifies this
      ensures State() == Step(old(State()), DropGuard(id))
    {
      if id in live {
        live := live - {id};
        closing := closing + {id};
        activeConnections := FetchAdd(activeConnections, -1);
      }
    }

    method ReleasePermit(id: nat)
      modifies this
      ensures State() == Step(old(State()), DropPermit(id))
    {
      if id in closing {
        closing := closing - {id};
        permits := permits + 1;
        history := history.(finished := history.finished + 1);
      }
    }

    /** `add_tcp_bytes`, `add_udp_bytes_in` and the like; one call for TCP is two of these. */
    method AddToMeter(id: nat, meter: Meter, n: u64)
      modifies this
      ensures State() == Step(old(State()), Add(id, meter, n))
    {
      if id in live {
        var i := Slot(meter);
        meters := meters[i := FetchAdd(meters[i], n)];
        history := history.(added := history.added[i := history.added[i] + n]);
      }
    }

    method Perform(a: Action)
      modifies this
      ensures State() == Step(old(State()), a)
    {
      hide Step;
      match a {
        case Accept => AcceptSocket();
        case TryAcquire => AcquirePermit();
        case CountRejection => IncConnectionLimitRejections();
        case CountTotal => IncTotalConnections();
        case CountActive => IncActiveConnections();
        case Spawn => SpawnTask();
        case Shutdown => StopAccepting();
        case Dispatch(id, socks5) => CountProtocol(id, socks5);
        case DropGuard(id) => DropActiveGuard(id);
        case DropPermit(id) => ReleasePermit(id);
        case Add(id, meter, n) => AddToMeter(id, meter, n);
      }
    }

    /** Any interleaving of the accept loop and its tasks. */
    method Interleave(schedule: seq<Action>)
      modifies this
      ensures State() == Run(old(State()), schedule)
    {
      hide Step;
      ghost var start := State();
      for i := 0 to |schedule|
        invariant State() == Run(start, schedule[..i])
      {
        Perform(schedule[i]);
        RunLast(start, schedule[..i], schedule[i]);
        assert schedule[..i + 1] == schedule[..i] + [schedule[i]];
      }
      assert schedule[..|schedule|] == schedule;
    }
  }
}
