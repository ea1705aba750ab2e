/**
 Laws of every run of one coordinator: any operations in any order, including refused ones, tokens
 that were never issued and clocks that run backwards unless a law says otherwise.
 */
module LeaseRuns {
  import opened Bytes
  import opened LeaseModel

  ghost function Run(c: Config, s: State, ops: seq<Op>): State
    decreases |ops|
  {
    if ops == [] then s else Run(c, Next(c, s, ops[0]), ops[1..])
  }

  // ----- Well-formed states

  ghost predicate GoodRecord(c: Config, s: State, record: Record) {
    && record.id.epoch == c.epoch && record.id.instance == c.instance
    && 1 <= record.id.sequence < s.nextSequence
    && 1 <= record.revision <= U64_MAX
    && record.lastActivity < record.deadline
  }

  ghost predicate WellFormed(c: Config, s: State) {
    && 1 <= s.nextSequence <= U64_MAX
    && |s.leases| <= MAX_ACTIVE_CREDENTIAL_LIFECYCLE_LEASES
    && (forall t :: t in s.leases ==> GoodRecord(c, s, s.leases[t]))
    && (forall t, u :: t in s.leases && u in s.leases && s.leases[t].id == s.leases[u].id ==> t == u)
  }

  /** What a step can do to the record of one target. */
  lemma StepOnTarget(c: Config, s: State, op: Op, t: Target)
    ensures s.nextSequence <= Next(c, s, op).nextSequence
    ensures t in Next(c, s, op).leases && t !in s.leases ==>
      && op.BeginLogin? && Permitted(c, s, op) && t == op.plan.target
      && Next(c, s, op).leases[t] == Record(LeaseOf(c, s, op.plan).id, 1, Running, op.now, op.now + LoginTimeout(op.plan))
      && Next(c, s, op).nextSequence == s.nextSequence + 1
    ensures t in Next(c, s, op).leases && t in s.leases ==>
      var before, after := s.leases[t], Next(c, s, op).leases[t];
      || after == before
      || (op.OnLease() && !op.Complete? && op.lease == Lease(before.id, t) && Permitted(c, s, op)
          && after == Touched(before, op))
      || (op.StaleRecoveryTickets? && Permitted(c, s, op) && after == Marked(c, before, op.now))
  {
  }

  lemma StepKeepsRecord(c: Config, s: State, op: Op, t: Target)
    requires WellFormed(c, s) && t in Next(c, s, op).leases
    ensures GoodRecord(c, Next(c, s, op), Next(c, s, op).leases[t])
  {
    hide Next;
    StepOnTarget(c, s, op, t);
  }

  lemma StepKeepsIdsApart(c: Config, s: State, op: Op, t: Target, u: Target)
    requires WellFormed(c, s)
    requires t in Next(c, s, op).leases && u in Next(c, s, op).leases
    requires Next(c, s, op).leases[t].id == Next(c, s, op).leases[u].id
    ensures t == u
  {
    hide Next, Permitted, DueReason;
    StepOnTarget(c, s, op, t);
    StepOnTarget(c, s, op, u);
  }

  /** Which targets are leased after a step. */
  lemma StepKeys(c: Config, s: State, op: Op)
    ensures Next(c, s, op).leases.Keys
         == if !Permitted(c, s, op) then s.leases.Keys
            else if op.BeginLogin? then s.leases.Keys + {op.plan.target}
            else if op.Complete? then s.leases.Keys - {op.lease.target}
            else if op.FinishStaleRecovery? then s.leases.Keys - {op.ticket.target}
            else s.leases.Keys
  {
  }

  lemma StepKeepsCapacity(c: Config, s: State, op: Op)
    requires |s.leases| <= MAX_ACTIVE_CREDENTIAL_LIFECYCLE_LEASES
    ensures |Next(c, s, op).leases| <= MAX_ACTIVE_CREDENTIAL_LIFECYCLE_LEASES
  {
    hide Next, Preflight, Live;
    StepKeys(c, s, op);
    var before, after := s.leases.Keys, Next(c, s, op).leases.Keys;
    assert |before| == |s.leases| && |after| == |Next(c, s, op).leases|;
    if op.BeginLogin? {
      assert |before + {op.plan.target}| <= |before| + 1;
    }
  }

  lemma StepKeepsSequence(c: Config, s: State, op: Op)
    requires 1 <= s.nextSequence <= U64_MAX
    ensures 1 <= Next(c, s, op).nextSequence <= U64_MAX
  {
  }

  lemma StepKeepsWellFormed(c: Config, s: State, op: Op)
    requires WellFormed(c, s)
    ensures WellFormed(c, Next(c, s, op))
  {
    hide Next, GoodRecord;
    var next := Next(c, s, op);
    forall t | t in next.leases
      ensures GoodRecord(c, next, next.leases[t])
    {
      StepKeepsRecord(c, s, op, t);
    }
    forall t, u | t in next.leases && u in next.leases && next.leases[t].id == next.leases[u].id
      ensures t == u
    {
      StepKeepsIdsApart(c, s, op, t, u);
    }
    StepKeepsCapacity(c, s, op);
    StepKeepsSequence(c, s, op);
  }

  /** Every run keeps a well-formed state well formed. */
  lemma {:induction false} RunKeepsWellFormed(c: Config, s: State, ops: seq<Op>)
    requires WellFormed(c, s)
    ensures WellFormed(c, Run(c, s, ops))
    decreases |ops|
  {
    if ops != [] {
      StepKeepsWellFormed(c, s, ops[0]);
      RunKeepsWellFormed(c, Next(c, s, ops[0]), ops[1..]);
    }
  }

  /** What holds in every state a coordinator can reach. */
  lemma ReachableIsWellFormed(c: Config, ops: seq<Op>)
    ensures WellFormed(c, Run(c, Initial, ops))
  {
    RunKeepsWellFormed(c, Initial, ops);
  }

  // ----- Identity

  /** The identifier was handed out and its lease is over. */
  ghost predicate Ended(s: State, id: LeaseId) {
    id.sequence < s.nextSequence && forall t :: t in s.leases ==> s.leases[t].id != id
  }

  lemma StepKeepsEnded(c: Config, s: State, op: Op, id: LeaseId)
    requires Ended(s, id)
    ensures Ended(Next(c, s, op), id)
  {
    var next := Next(c, s, op);
    forall t | t in next.leases
      ensures next.leases[t].id != id
    {
      StepOnTarget(c, s, op, t);
    }
    if s.leases == map[] {
      StepOnTarget(c, s, op, Profile(""));
    }
  }

  /** A token whose lease ended fails forever, even when its target is leased again. */
  lemma {:induction false} EndedTokenFailsForever(c: Config, s: State, ops: seq<Op>, lease: Lease)
    requires Ended(s, lease.id)
    ensures Ended(Run(c, s, ops), lease.id)
    ensures forall op: Op :: op.OnLease() && op.lease == lease ==> !Permitted(c, Run(c, s, ops), op)
    decreases |ops|
  {
    if ops != [] {
      StepKeepsEnded(c, s, ops[0], lease.id);
      EndedTokenFailsForever(c, Next(c, s, ops[0]), ops[1..], lease);
    }
  }

  /** Completing or recovering a lease ends it. */
  lemma ReleaseEndsLease(c: Config, s: State, op: Op)
    requires WellFormed(c, s) && Permitted(c, s, op)
    requires op.Complete? || op.FinishStaleRecovery?
    ensures Ended(Next(c, s, op), if op.Complete? then op.lease.id else op.ticket.id)
  {
    var target := if op.Complete? then op.lease.target else op.ticket.target;
    assert target in s.leases;
  }

  /** A new lease never reuses an identifier, active or ended. */
  lemma BeginUsesFreshId(c: Config, s: State, op: Op, id: LeaseId)
    requires WellFormed(c, s) && op.BeginLogin? && Permitted(c, s, op)
    requires id.sequence < s.nextSequence
    ensures LeaseOf(c, s, op.plan).id != id
    ensures forall t :: t in s.leases ==> s.leases[t].id != LeaseOf(c, s, op.plan).id
  {
  }

  // ----- Revisions

  lemma StepRevision(c: Config, s: State, op: Op, t: Target)
    requires t in s.leases && t in Next(c, s, op).leases
    ensures var before, after := s.leases[t], Next(c, s, op).leases[t];
      && before.revision <= after.revision
      && (before.state != after.state ==> before.revision < after.revision)
      && before.deadline == after.deadline
  {
  }

  /** A lease that a step releases has ended. */
  lemma ReleasedMeansEnded(c: Config, s: State, op: Op, lease: Lease)
    requires WellFormed(c, s) && Holds(s, lease) && !Holds(Next(c, s, op), lease)
    ensures Ended(Next(c, s, op), lease.id)
  {
    hide Next, Permitted;
    var next := Next(c, s, op);
    StepOnTarget(c, s, op, lease.target);
    forall t | t in next.leases
      ensures next.leases[t].id != lease.id
    {
      StepOnTarget(c, s, op, t);
    }
  }

  /** A lease that is still active at the end of a run was active all along. */
  lemma {:induction false} ActiveAllAlong(c: Config, s: State, op: Op, rest: seq<Op>, lease: Lease)
    requires WellFormed(c, s) && Holds(s, lease)
    requires Holds(Run(c, Next(c, s, op), rest), lease)
    ensures Holds(Next(c, s, op), lease)
  {
    hide Next, WellFormed, Permitted;
    if !Holds(Next(c, s, op), lease) {
      ReleasedMeansEnded(c, s, op, lease);
      EndedTokenFailsForever(c, Next(c, s, op), rest, lease);
      assert false;
    }
  }

  /** Along any run a lease keeps its deadline and its revision never falls. */
  lemma {:induction false} RevisionNeverFalls(c: Config, s: State, ops: seq<Op>, lease: Lease)
    requires WellFormed(c, s) && Holds(s, lease) && Holds(Run(c, s, ops), lease)
    ensures s.leases[lease.target].revision <= Run(c, s, ops).leases[lease.target].revision
    ensures s.leases[lease.target].deadline == Run(c, s, ops).leases[lease.target].deadline
    ensures s.leases[lease.target].state != Run(c, s, ops).leases[lease.target].state ==>
      s.leases[lease.target].revision < Run(c, s, ops).leases[lease.target].revision
    decreases |ops|
  {
    if ops != [] {
      ActiveAllAlong(c, s, ops[0], ops[1..], lease);
      StepKeepsWellFormed(c, s, ops[0]);
      StepRevision(c, s, ops[0], lease.target);
      RevisionNeverFalls(c, Next(c, s, ops[0]), ops[1..], lease);
    }
  }

  /** Publish and resume are compare-and-swap: each expected revision of a lease is won at most once. */
  lemma OneWinnerPerRevision(c: Config, s: State, first: Op, between: seq<Op>, second: Op)
    requires WellFormed(c, s)
    requires first.PublishPending? || first.Resume?
    requires second.PublishPending? || second.Resume?
    requires first.lease == second.lease && first.expected == second.expected
    requires Permitted(c, s, first)
    ensures !Permitted(c, Run(c, Next(c, s, first), between), second)
  {
    var next := Next(c, s, first);
    StepKeepsWellFormed(c, s, first);
    if Holds(Run(c, next, between), first.lease) {
      RevisionNeverFalls(c, next, between, first.lease);
    }
  }

  // ----- Cancellation

  predicate WindingDown(state: LeaseState) {
    state.Cancelling? || state.RecoveryRequired?
  }

  lemma WindingDownStep(c: Config, s: State, op: Op, lease: Lease)
    requires Holds(s, lease) && WindingDown(s.leases[lease.target].state)
    requires Holds(Next(c, s, op), lease)
    ensures WindingDown(Next(c, s, op).leases[lease.target].state)
  {
    hide Next;
    StepOnTarget(c, s, op, lease.target);
  }

  /** A cancelled lease never works again and never completes as succeeded. */
  lemma {:induction false} CancelIsFinal(c: Config, s: State, ops: seq<Op>, lease: Lease)
    requires WellFormed(c, s) && Holds(s, lease)
    requires WindingDown(s.leases[lease.target].state)
    ensures var end := Run(c, s, ops);
      && (Holds(end, lease) ==> WindingDown(end.leases[lease.target].state))
      && (forall now :: !Permitted(c, end, Complete(lease, Succeeded, now)))
      && (forall expected, now :: !Permitted(c, end, Resume(lease, expected, now)))
      && (forall now :: !Permitted(c, end, Heartbeat(lease, now)))
      && (forall expected, kind, now :: !Permitted(c, end, PublishPending(lease, expected, kind, now)))
    decreases |ops|
  {
    hide Next, WellFormed;
    if ops != [] {
      var next := Next(c, s, ops[0]);
      StepKeepsWellFormed(c, s, ops[0]);
      if Holds(next, lease) {
        WindingDownStep(c, s, ops[0], lease);
        CancelIsFinal(c, next, ops[1..], lease);
      } else {
        ReleasedMeansEnded(c, s, ops[0], lease);
        EndedTokenFailsForever(c, next, ops[1..], lease);
      }
    }
  }

  // ----- Time

  /** When a lease began, how long it may last, and every accepted activity since. */
  datatype History = History(begun: Instant, timeout: nat, activity: seq<Instant>)

  ghost predicate Timely(c: Config, h: History) {
    && h.activity != [] && h.activity[0] == h.begun
    && 0 < h.timeout <= MAX_CREDENTIAL_LOGIN_TIMEOUT
    && (forall k :: 0 <= k < |h.activity| ==> h.begun <= h.activity[k] < h.begun + h.timeout)
    && (forall k :: 0 < k < |h.activity| ==>
          h.activity[k - 1] <= h.activity[k] && h.activity[k] - h.activity[k - 1] < c.idle)
  }

  /** Whether a permitted step counts as activity of the lease it names. */
  ghost predicate IsActivity(c: Config, s: State, op: Op) {
    && Permitted(c, s, op)
    && (op.PublishPending? || op.Resume? || op.Heartbeat?
        || (op.RequestCancel? && !s.leases[op.lease.target].state.Cancelling?))
  }

  ghost function Track(c: Config, s: State, past: map<LeaseId, History>, op: Op): map<LeaseId, History> {
    if op.BeginLogin? && Permitted(c, s, op) then
      past[LeaseOf(c, s, op.plan).id := History(op.now, LoginTimeout(op.plan), [op.now])]
    else if IsActivity(c, s, op) && op.lease.id in past then
      var h := past[op.lease.id];
      past[op.lease.id := h.(activity := h.activity + [op.now])]
    else past
  }

  ghost function TrackRun(c: Config, s: State, past: map<LeaseId, History>, ops: seq<Op>): map<LeaseId, History>
    decreases |ops|
  {
    if ops == [] then past
    else TrackRun(c, Next(c, s, ops[0]), Track(c, s, past, ops[0]), ops[1..])
  }

  ghost predicate TrackedRecord(c: Config, record: Record, h: History) {
    && Timely(c, h)
    && record.lastActivity == h.activity[|h.activity| - 1]
    && record.deadline == h.begun + h.timeout
  }

  ghost predicate Tracked(c: Config, s: State, past: map<LeaseId, History>) {
    forall t :: t in s.leases ==>
      s.leases[t].id in past && TrackedRecord(c, s.leases[t], past[s.leases[t].id])
  }

  lemma ActivityIsTimely(c: Config, record: Record, h: History, now: Instant)
    requires TrackedRecord(c, record, h) && Live(c, record, now)
    ensures Timely(c, h.(activity := h.activity + [now]))
  {
  }

  /** The history of an identifier after a step. */
  lemma TrackAt(c: Config, s: State, past: map<LeaseId, History>, op: Op, id: LeaseId)
    requires id in past && id.sequence < s.nextSequence
    ensures id in Track(c, s, past, op)
    ensures Track(c, s, past, op)[id]
         == if IsActivity(c, s, op) && op.lease.id == id
            then past[id].(activity := past[id].activity + [op.now]) else past[id]
  {
  }

  lemma TouchIsTracked(c: Config, record: Record, h: History, op: Op)
    requires op.PublishPending? || op.Resume? || op.Heartbeat? || (op.RequestCancel? && !record.state.Cancelling?)
    requires TrackedRecord(c, record, h) && Live(c, record, op.now)
    ensures TrackedRecord(c, Touched(record, op), h.(activity := h.activity + [op.now]))
  {
    ActivityIsTimely(c, record, h, op.now);
    hide Timely, Live;
  }

  lemma BeginIsTracked(c: Config, s: State, past: map<LeaseId, History>, op: Op)
    requires op.BeginLogin? && Permitted(c, s, op)
    ensures var id := LeaseOf(c, s, op.plan).id;
      && id in Track(c, s, past, op)
      && TrackedRecord(c, Record(id, 1, Running, op.now, op.now + LoginTimeout(op.plan)), Track(c, s, past, op)[id])
  {
  }

  lemma StepKeepsTrackedAt(c: Config, s: State, past: map<LeaseId, History>, op: Op, t: Target)
    requires WellFormed(c, s) && Tracked(c, s, past)
    requires t in Next(c, s, op).leases
    ensures var id := Next(c, s, op).leases[t].id;
      id in Track(c, s, past, op) && TrackedRecord(c, Next(c, s, op).leases[t], Track(c, s, past, op)[id])
  {
    hide Next, Track, Timely, Preflight, Live;
    StepOnTarget(c, s, op, t);
    if t !in s.leases {
      BeginIsTracked(c, s, past, op);
    } else {
      var record := s.leases[t];
      TrackAt(c, s, past, op, record.id);
      if IsActivity(c, s, op) && op.lease.id == record.id {
        assert op.lease.target == t;
        TouchIsTracked(c, record, past[record.id], op);
        TouchedRecord(c, s, op);
      }
    }
  }

  lemma TouchedRecord(c: Config, s: State, op: Op)
    requires IsActivity(c, s, op)
    ensures op.lease.target in Next(c, s, op).leases
    ensures Next(c, s, op).leases[op.lease.target] == Touched(s.leases[op.lease.target], op)
  {
    hide Preflight, Live;
  }

  lemma StepKeepsTracked(c: Config, s: State, past: map<LeaseId, History>, op: Op)
    requires WellFormed(c, s) && Tracked(c, s, past)
    ensures Tracked(c, Next(c, s, op), Track(c, s, past, op))
  {
    hide Next, Track, WellFormed, TrackedRecord;
    var next, now := Next(c, s, op), Track(c, s, past, op);
    forall t | t in next.leases
      ensures next.leases[t].id in now && TrackedRecord(c, next.leases[t], now[next.leases[t].id])
    {
      StepKeepsTrackedAt(c, s, past, op, t);
    }
  }

  lemma {:induction false} RunKeepsTracked(c: Config, s: State, past: map<LeaseId, History>, ops: seq<Op>)
    requires WellFormed(c, s) && Tracked(c, s, past)
    ensures Tracked(c, Run(c, s, ops), TrackRun(c, s, past, ops))
    decreases |ops|
  {
    if ops != [] {
      StepKeepsWellFormed(c, s, ops[0]);
      StepKeepsTracked(c, s, past, ops[0]);
      RunKeepsTracked(c, Next(c, s, ops[0]), Track(c, s, past, ops[0]), ops[1..]);
    }
  }

  /** In every reachable state: begun <= last activity < deadline, and the deadline is where it began. */
  lemma DeadlineLaw(c: Config, ops: seq<Op>, t: Target)
    requires t in Run(c, Initial, ops).leases
    ensures var record := Run(c, Initial, ops).leases[t];
      && record.id in TrackRun(c, Initial, map[], ops)
      && var h := TrackRun(c, Initial, map[], ops)[record.id];
         h.begun <= record.lastActivity < record.deadline == h.begun + h.timeout
  {
    RunKeepsTracked(c, Initial, map[], ops);
  }

  /**
   What the range of idle timeouts is for. A timeout is never zero, so in every reachable state a lease
   is live at the instant of its last activity; and it is never above the ceiling, so five minutes
   without activity leave no lease live.
   */
  lemma IdleTimeoutBounds(c: Config, ops: seq<Op>, t: Target)
    requires t in Run(c, Initial, ops).leases
    ensures var record := Run(c, Initial, ops).leases[t];
      && Live(c, record, record.lastActivity)
      && forall now: Instant ::
           now >= record.lastActivity + MAX_CREDENTIAL_LIFECYCLE_IDLE_TIMEOUT ==> !Live(c, record, now)
  {
    ReachableIsWellFormed(c, ops);
  }

  /** A login that succeeds was never idle too long and ended within its timeout. */
  lemma SuccessWasTimely(c: Config, ops: seq<Op>, lease: Lease, now: Instant)
    requires Permitted(c, Run(c, Initial, ops), Complete(lease, Succeeded, now))
    ensures lease.id in TrackRun(c, Initial, map[], ops)
    ensures var h := TrackRun(c, Initial, map[], ops)[lease.id];
      && Timely(c, h.(activity := h.activity + [now]))
      && now - h.begun < h.timeout
  {
    RunKeepsTracked(c, Initial, map[], ops);
    var record := Run(c, Initial, ops).leases[lease.target];
    ActivityIsTimely(c, record, TrackRun(c, Initial, map[], ops)[lease.id], now);
  }

  // ----- Stale recovery

  /** The coordinator, the latest time it was called with, and the tickets issued but not consumed. */
  datatype System = System(state: State, clock: Instant, outstanding: set<Ticket>)

  function TimeOf(op: Op): Option<Instant> {
    if op.FinishStaleRecovery? then None else Some(op.now)
  }

  /** Time does not run backwards, and a ticket is consumed only by its holder. */
  ghost predicate Enabled(sys: System, op: Op) {
    && (TimeOf(op).Some? ==> sys.clock <= TimeOf(op).value)
    && (op.FinishStaleRecovery? ==> op.ticket in sys.outstanding)
  }

  ghost function Advance(c: Config, sys: System, op: Op): System {
    var clock := if TimeOf(op).Some? then TimeOf(op).value else sys.clock;
    var outstanding :=
      if op.StaleRecoveryTickets? && Permitted(c, sys.state, op) then
        sys.outstanding + Issued(c, sys.state, op.now)
      else if op.FinishStaleRecovery? then sys.outstanding - {op.ticket}
      else sys.outstanding;
    System(Next(c, sys.state, op), clock, outstanding)
  }

  ghost function AdvanceAll(c: Config, sys: System, ops: seq<Op>): System
    decreases |ops|
  {
    if ops == [] then sys else AdvanceAll(c, Advance(c, sys, ops[0]), ops[1..])
  }

  ghost predicate Legal(c: Config, sys: System, ops: seq<Op>)
    decreases |ops|
  {
    ops == [] || (Enabled(sys, ops[0]) && Legal(c, Advance(c, sys, ops[0]), ops[1..]))
  }

  ghost function TicketFor(record: Record, t: Target): Ticket
    requires record.state.RecoveryRequired?
  {
    Ticket(record.id, t, record.revision, record.state.reason)
  }

  /** Outstanding tickets and leases in recovery name each other, one to one. */
  ghost predicate TicketsMatch(sys: System) {
    && (forall t :: t in sys.state.leases && sys.state.leases[t].state.RecoveryRequired? ==>
          TicketFor(sys.state.leases[t], t) in sys.outstanding)
    && (forall ticket :: ticket in sys.outstanding ==>
          && ticket.target in sys.state.leases
          && sys.state.leases[ticket.target].state.RecoveryRequired?
          && ticket == TicketFor(sys.state.leases[ticket.target], ticket.target))
  }

  /** No clock reading lies behind, and a lease in recovery is past the point of being live. */
  ghost predicate ClockAgrees(c: Config, sys: System) {
    forall t :: t in sys.state.leases ==>
      var record := sys.state.leases[t];
      && record.lastActivity <= sys.clock
      && (record.state.RecoveryRequired? ==> !Live(c, record, sys.clock))
  }

  ghost predicate Sound(c: Config, sys: System) {
    WellFormed(c, sys.state) && ClockAgrees(c, sys) && TicketsMatch(sys)
  }

  lemma StepKeepsClock(c: Config, sys: System, op: Op)
    requires Sound(c, sys) && Enabled(sys, op)
    ensures ClockAgrees(c, Advance(c, sys, op))
  {
    hide Next, Preflight, TicketsMatch, WellFormed, Issued;
    var next := Advance(c, sys, op);
    forall t | t in next.state.leases
      ensures next.state.leases[t].lastActivity <= next.clock
      ensures next.state.leases[t].state.RecoveryRequired? ==> !Live(c, next.state.leases[t], next.clock)
    {
      StepOnTarget(c, sys.state, op, t);
    }
  }

  lemma MarkingKeepsTickets(c: Config, sys: System, op: Op)
    requires TicketsMatch(sys) && op.StaleRecoveryTickets? && Permitted(c, sys.state, op)
    ensures TicketsMatch(Advance(c, sys, op))
  {
    hide Permitted;
    var s, next := sys.state, Advance(c, sys, op);
    forall t | t in next.state.leases && next.state.leases[t].state.RecoveryRequired?
      ensures TicketFor(next.state.leases[t], t) in next.outstanding
    {
      assert t in s.leases && next.state.leases[t] == Marked(c, s.leases[t], op.now);
      if DueReason(c, s.leases[t], op.now).Some? {
        assert TicketFor(next.state.leases[t], t) in Issued(c, s, op.now);
      }
    }
  }

  lemma ConsumingKeepsTickets(c: Config, sys: System, op: Op)
    requires TicketsMatch(sys) && op.FinishStaleRecovery? && op.ticket in sys.outstanding
    ensures TicketsMatch(Advance(c, sys, op))
  {
    hide Preflight, Live;
    assert Permitted(c, sys.state, op);
  }

  lemma OtherStepsKeepTickets(c: Config, sys: System, op: Op)
    requires Sound(c, sys) && Enabled(sys, op)
    requires !op.StaleRecoveryTickets? && !op.FinishStaleRecovery?
    ensures TicketsMatch(Advance(c, sys, op))
  {
    var s, next := sys.state, Advance(c, sys, op).state;
    forall t | t in s.leases && s.leases[t].state.RecoveryRequired?
      ensures t in next.leases && next.leases[t] == s.leases[t]
    {
      RecoveryStep(c, sys, op, t);
    }
    hide Next, WellFormed;
    forall t | t in next.leases && next.leases[t].state.RecoveryRequired?
      ensures t in s.leases && s.leases[t].state.RecoveryRequired?
    {
      StepOnTarget(c, s, op, t);
    }
  }

  lemma StepKeepsTickets(c: Config, sys: System, op: Op)
    requires Sound(c, sys) && Enabled(sys, op)
    ensures TicketsMatch(Advance(c, sys, op))
  {
    hide Next, Issued, TicketsMatch, WellFormed, Preflight;
    if op.StaleRecoveryTickets? {
      if Permitted(c, sys.state, op) {
        MarkingKeepsTickets(c, sys, op);
      } else {
        RefusedChangesNothing(c, sys, op);
      }
    } else if op.FinishStaleRecovery? {
      ConsumingKeepsTickets(c, sys, op);
    } else {
      OtherStepsKeepTickets(c, sys, op);
    }
  }

  lemma RefusedChangesNothing(c: Config, sys: System, op: Op)
    requires !Permitted(c, sys.state, op) && !op.FinishStaleRecovery?
    requires TicketsMatch(sys)
    ensures TicketsMatch(Advance(c, sys, op))
  {
    hide Permitted;
  }

  lemma {:induction false} RunKeepsSound(c: Config, sys: System, ops: seq<Op>)
    requires Sound(c, sys) && Legal(c, sys, ops)
    ensures Sound(c, AdvanceAll(c, sys, ops))
    decreases |ops|
  {
    if ops != [] {
      StepKeepsWellFormed(c, sys.state, ops[0]);
      StepKeepsClock(c, sys, ops[0]);
      StepKeepsTickets(c, sys, ops[0]);
      RunKeepsSound(c, Advance(c, sys, ops[0]), ops[1..]);
    }
  }

  /** From the start of a coordinator every legal run keeps tickets and recoveries matched. */
  lemma TicketsAlwaysMatch(c: Config, ops: seq<Op>)
    requires Legal(c, System(Initial, 0, {}), ops)
    ensures TicketsMatch(AdvanceAll(c, System(Initial, 0, {}), ops))
  {
    RunKeepsSound(c, System(Initial, 0, {}), ops);
  }

  /** One step cannot touch a lease in recovery unless it consumes the one ticket for it. */
  lemma RecoveryStep(c: Config, sys: System, op: Op, t: Target)
    requires Sound(c, sys) && Enabled(sys, op)
    requires t in sys.state.leases && sys.state.leases[t].state.RecoveryRequired?
    requires op != FinishStaleRecovery(TicketFor(sys.state.leases[t], t))
    ensures t in Next(c, sys.state, op).leases
    ensures Next(c, sys.state, op).leases[t] == sys.state.leases[t]
    ensures op.OnLease() && op.lease.target == t ==> !Permitted(c, sys.state, op)
    ensures op.BeginLogin? && op.plan.target == t ==> !Permitted(c, sys.state, op)
  {
    if op.FinishStaleRecovery? {
      assert op.ticket in sys.outstanding;
    }
  }

  /**
   With time that never runs backwards, a lease in recovery stays exactly as it is, and every
   operation on its target is refused, until its single ticket is consumed.
   */
  lemma {:induction false} RecoveryIsHeld(c: Config, sys: System, ops: seq<Op>, t: Target)
    requires Sound(c, sys) && Legal(c, sys, ops)
    requires t in sys.state.leases && sys.state.leases[t].state.RecoveryRequired?
    requires FinishStaleRecovery(TicketFor(sys.state.leases[t], t)) !in ops
    ensures var end := AdvanceAll(c, sys, ops);
      && Sound(c, end)
      && t in end.state.leases && end.state.leases[t] == sys.state.leases[t]
      && (forall op: Op :: Enabled(end, op) && op.OnLease() && op.lease.target == t ==>
            !Permitted(c, end.state, op))
    decreases |ops|
  {
    if ops == [] {
      forall op: Op | Enabled(sys, op) && op.OnLease() && op.lease.target == t
        ensures !Permitted(c, sys.state, op)
      {
        RecoveryStep(c, sys, op, t);
      }
    } else {
      RecoveryStep(c, sys, ops[0], t);
      RunKeepsSound(c, sys, [ops[0]]);
      assert AdvanceAll(c, sys, [ops[0]]) == Advance(c, sys, ops[0]);
      RecoveryIsHeld(c, Advance(c, sys, ops[0]), ops[1..], t);
    }
  }

  /**
   Without the hypothesis on time the law fails, and exactly one operation breaks it: a lease in
   recovery changes if and only if its ticket is consumed or it is cancelled with a time at which it
   was still live.
   */
  lemma RecoveryChangesExactlyWhen(c: Config, s: State, op: Op, t: Target)
    requires WellFormed(c, s)
    requires t in s.leases && s.leases[t].state.RecoveryRequired?
    ensures var record, next := s.leases[t], Next(c, s, op);
      !(t in next.leases && next.leases[t] == record) <==>
        || (op.FinishStaleRecovery? && op.ticket.target == t && op.ticket.id == record.id
            && op.ticket.revision == record.revision)
        || (op.RequestCancel? && op.lease == Lease(record.id, t) && Live(c, record, op.now)
            && record.revision < U64_MAX)
  {
  }

  // ----- Changes reported as failures

  /**
   An accepted change of a lease is answered by a snapshot taken afterwards. That snapshot fails exactly
   when the idle deadline of the changed lease lies beyond the largest instant, and then although the
   change was made.
   */
  lemma OverflowReportedExactlyWhen(c: Config, s: State, op: Op)
    requires op.OnLease() && !op.Complete? && Permitted(c, s, op)
    ensures var record := Next(c, s, op).leases[op.lease.target];
      var activity := if IsActivity(c, s, op) then op.now else s.leases[op.lease.target].lastActivity;
      && record.lastActivity == activity
      && (SnapshotFor(c, record, op.now).Err? <==> activity + c.idle > c.horizon)
      && (SnapshotFor(c, record, op.now).Err? ==> SnapshotFor(c, record, op.now) == Err(TimeOverflow))
  {
    hide Preflight;
  }

  /** A concrete run in which a heartbeat takes effect and is reported as a failure. */
  lemma OverflowAfterChange()
    ensures var c := Config(1, 1, 300 * SECOND, 60 * SECOND);
      var target := Profile("work");
      var begun := Next(c, Initial, BeginLogin(Plan(Login, Some(60), target), Invalidated, 0));
      var beat := Next(c, begun, Heartbeat(Lease(LeaseId(1, 1, 1), target), SECOND));
      && begun.leases[target].lastActivity == 0 && beat.leases[target].lastActivity == SECOND
      && SnapshotFor(c, beat.leases[target], SECOND) == Err(TimeOverflow)
  {
    var c := Config(1, 1, 300 * SECOND, 60 * SECOND);
    var target := Profile("work");
    var begun := Next(c, Initial, BeginLogin(Plan(Login, Some(60), target), Invalidated, 0));
    assert begun.leases[target] == Record(LeaseId(1, 1, 1), 1, Running, 0, 60 * SECOND);
  }

  /** A concrete run in which a clock that runs backwards takes a lease out of recovery. */
  lemma BackwardClockEscapesRecovery()
    ensures var c := Config(1, 1, 10, 1_000_000_000_000);
      var target := Profile("work");
      var lease := Lease(LeaseId(1, 1, 1), target);
      var begun := Next(c, Initial, BeginLogin(Plan(Login, Some(60), target), Invalidated, 0));
      var marked := Next(c, begun, StaleRecoveryTickets(10));
      && marked.leases[target].state == RecoveryRequired(Idle)
      && Next(c, marked, RequestCancel(lease, 5)).leases[target].state == Cancelling
  {
    var c := Config(1, 1, 10, 1_000_000_000_000);
    var target := Profile("work");
    var begun := Next(c, Initial, BeginLogin(Plan(Login, Some(60), target), Invalidated, 0));
    assert begun.leases[target] == Record(LeaseId(1, 1, 1), 1, Running, 0, 60_000_000_000);
    assert Preflight(c, begun, 10);
  }
}
