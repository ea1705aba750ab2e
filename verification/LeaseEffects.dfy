/**
 What a lease's operations change and what they leave alone: the effect of every granted operation field
 by field, what each state allows, what each refusal means, and how revisions count changes over runs.
 */
module LeaseEffects {
  import opened Bytes
  import opened LeaseModel
  import opened LeaseRuns

  // ----- Effects

  /** A granted operation writes exactly these fields of exactly this lease. */
  lemma GrantedEffect(c: Config, s: State, op: Op)
    requires Permitted(c, s, op) && !op.StaleRecoveryTickets?
    ensures match op
      case BeginLogin(plan, _, now) =>
        var timeout := if plan.timeoutSecs.Some? then plan.timeoutSecs.value * 1_000_000_000 else 300_000_000_000;
        Next(c, s, op) == State(s.nextSequence + 1,
          s.leases[plan.target := Record(LeaseId(c.epoch, c.instance, s.nextSequence), 1, Running, now, now + timeout)])
      case PublishPending(lease, expected, kind, now) =>
        Next(c, s, op) == s.(leases :=
          s.leases[lease.target := Record(lease.id, expected + 1, Pending(kind), now, s.leases[lease.target].deadline)])
      case Resume(lease, expected, now) =>
        Next(c, s, op) == s.(leases :=
          s.leases[lease.target := Record(lease.id, expected + 1, Running, now, s.leases[lease.target].deadline)])
      case Heartbeat(lease, now) =>
        Next(c, s, op) == s.(leases := s.leases[lease.target := s.leases[lease.target].(lastActivity := now)])
      case RequestCancel(lease, now) =>
        var record := s.leases[lease.target];
        Next(c, s, op) == if record.state.Cancelling? then s else s.(leases :=
          s.leases[lease.target := Record(lease.id, record.revision + 1, Cancelling, now, record.deadline)])
      case Complete(lease, _, _) =>
        Next(c, s, op) == s.(leases := s.leases - {lease.target})
      case FinishStaleRecovery(ticket) =>
        Next(c, s, op) == s.(leases := s.leases - {ticket.target})
  {
    hide Preflight, Live;
  }

  /**
   Marking touches exactly the leases that can no longer act and are not marked yet. The deadline is named
   as the reason whenever it has passed, and only otherwise the idle timeout.
   */
  lemma MarkingEffect(c: Config, s: State, now: Instant)
    requires Permitted(c, s, StaleRecoveryTickets(now))
    ensures var next := Next(c, s, StaleRecoveryTickets(now));
      && next.nextSequence == s.nextSequence && next.leases.Keys == s.leases.Keys
      && forall t :: t in s.leases ==>
           var record := s.leases[t];
           next.leases[t] ==
             if record.state.RecoveryRequired? || Live(c, record, now) then record
             else Record(record.id, record.revision + 1,
                         RecoveryRequired(if now >= record.deadline then Deadline else Idle),
                         record.lastActivity, record.deadline)
    ensures forall ticket :: ticket in Issued(c, s, now) <==>
      && ticket.target in s.leases && !s.leases[ticket.target].state.RecoveryRequired?
      && !Live(c, s.leases[ticket.target], now)
      && ticket.id == s.leases[ticket.target].id && ticket.revision == s.leases[ticket.target].revision + 1
      && ticket.reason == if now >= s.leases[ticket.target].deadline then Deadline else Idle
  {
  }

  /** Marking is granted exactly if time is not behind any unmarked lease and every due revision can rise. */
  lemma MarkingGrantedExactlyWhen(c: Config, s: State, now: Instant)
    ensures Permitted(c, s, StaleRecoveryTickets(now)) <==>
      forall t :: t in s.leases && !s.leases[t].state.RecoveryRequired? ==>
        && s.leases[t].lastActivity <= now
        && (!Live(c, s.leases[t], now) ==> s.leases[t].revision < U64_MAX)
  {
  }

  // ----- What is granted

  /** The lease can still act: the conditions of being live, spelled out. */
  lemma LiveMeans(c: Config, record: Record, now: Instant)
    ensures Live(c, record, now) <==>
      record.lastActivity <= now && now < record.deadline && now < record.lastActivity + c.idle
  {
  }

  /** What the holder of a live lease can do, state by state. */
  lemma LiveLeaseAllows(c: Config, s: State, lease: Lease, kind: PendingKind, outcome: Outcome, now: Instant)
    requires Holds(s, lease) && Live(c, s.leases[lease.target], now)
    ensures var record := s.leases[lease.target];
      var working := record.state.Running? || record.state.Pending?;
      && (forall expected: nat :: Permitted(c, s, PublishPending(lease, expected, kind, now)) <==>
            working && expected == record.revision && expected < U64_MAX)
      && (forall expected: nat :: Permitted(c, s, Resume(lease, expected, now)) <==>
            record.state.Pending? && expected == record.revision && expected < U64_MAX)
      && (Permitted(c, s, Heartbeat(lease, now)) <==> working)
      && (Permitted(c, s, RequestCancel(lease, now)) <==> record.state.Cancelling? || record.revision < U64_MAX)
      && (Permitted(c, s, Complete(lease, outcome, now)) <==>
            working || (record.state.Cancelling? && outcome != Succeeded))
  {
  }

  /** A lease that can no longer act can only end, and in recovery only by its ticket. */
  lemma StaleLeaseAllows(c: Config, s: State, lease: Lease, kind: PendingKind, outcome: Outcome, now: Instant)
    requires Holds(s, lease) && !Live(c, s.leases[lease.target], now)
    ensures var record := s.leases[lease.target];
      && (forall expected: nat :: !Permitted(c, s, PublishPending(lease, expected, kind, now)))
      && (forall expected: nat :: !Permitted(c, s, Resume(lease, expected, now)))
      && !Permitted(c, s, Heartbeat(lease, now)) && !Permitted(c, s, RequestCancel(lease, now))
      && (Permitted(c, s, Complete(lease, outcome, now)) <==> outcome != Succeeded && !record.state.RecoveryRequired?)
  {
  }

  /** A token or ticket of another lease is granted nothing. */
  lemma ForeignTokenAllowsNothing(c: Config, s: State, op: Op)
    requires op.OnLease() || op.FinishStaleRecovery?
    requires !Holds(s, if op.FinishStaleRecovery? then Lease(op.ticket.id, op.ticket.target) else op.lease)
    ensures !Permitted(c, s, op)
  {
  }

  /** A ticket is good exactly for the marked lease and the revision it names. */
  lemma TicketGoodExactlyWhen(c: Config, s: State, ticket: Ticket)
    ensures Permitted(c, s, FinishStaleRecovery(ticket)) <==>
      ticket.target in s.leases && s.leases[ticket.target].state.RecoveryRequired?
      && ticket.id == s.leases[ticket.target].id && ticket.revision == s.leases[ticket.target].revision
  {
  }

  /** A login is admitted exactly for a free target, with room, in time, once the cached status is gone. */
  lemma LoginAdmittedExactlyWhen(c: Config, s: State, plan: Plan, cache: CacheAnswer, now: Instant)
    ensures Permitted(c, s, BeginLogin(plan, cache, now)) <==>
      && plan.operation == Login && plan.target !in s.leases && |s.leases| < 256
      && (plan.timeoutSecs.Some? ==> 0 < plan.timeoutSecs.value <= 900)
      && now + (if plan.timeoutSecs.Some? then plan.timeoutSecs.value else 300) * 1_000_000_000 <= c.horizon
      && cache == Invalidated && s.nextSequence < U64_MAX
  {
  }

  // ----- What a refusal means

  /** Every error names a condition that really holds. */
  lemma RefusalNamesCause(c: Config, s: State, op: Op)
    requires Refusal(c, s, op).Some? && (op.OnLease() || op.FinishStaleRecovery?)
    ensures var lease := if op.FinishStaleRecovery? then Lease(op.ticket.id, op.ticket.target) else op.lease;
      match Refusal(c, s, op).value
      case LeaseNotFound => lease.target !in s.leases
      case LeaseMismatch => lease.target in s.leases && s.leases[lease.target].id != lease.id
      case ClockRegression => Holds(s, lease) && !op.FinishStaleRecovery? && op.now < s.leases[lease.target].lastActivity
      case LeaseStale =>
        Holds(s, lease) && !op.FinishStaleRecovery?
        && (op.now >= s.leases[lease.target].deadline || op.now >= s.leases[lease.target].lastActivity + c.idle)
      case StaleRevision =>
        Holds(s, lease)
        && s.leases[lease.target].revision !=
             if op.FinishStaleRecovery? then op.ticket.revision
             else if op.PublishPending? || op.Resume? then op.expected else s.leases[lease.target].revision
      case InvalidTransition =>
        Holds(s, lease) && !op.RequestCancel?
        && var state := s.leases[lease.target].state;
           if op.FinishStaleRecovery? then !state.RecoveryRequired?
           else if op.Resume? then !state.Pending?
           else state.Cancelling? || state.RecoveryRequired?
      case RevisionExhausted => Holds(s, lease) && s.leases[lease.target].revision >= U64_MAX
      case _ => false
  {
  }

  /** Every error of a refused login names a condition that really holds. */
  lemma LoginRefusalNamesCause(c: Config, s: State, op: Op)
    requires op.BeginLogin? && Refusal(c, s, op).Some?
    ensures match Refusal(c, s, op).value
      case WrongOperation => op.plan.operation != Login
      case InvalidLoginTimeout =>
        op.plan.timeoutSecs.Some? && (op.plan.timeoutSecs.value == 0 || op.plan.timeoutSecs.value > 900)
      case TimeOverflow =>
        op.now + (if op.plan.timeoutSecs.Some? then op.plan.timeoutSecs.value else 300) * 1_000_000_000 > c.horizon
      case LeaseAlreadyActive => op.plan.target in s.leases
      case CapacityExceeded => |s.leases| >= 256 && op.plan.target !in s.leases
      case ProcessEpochMismatch => op.cache == EpochMismatch
      case StatusInvalidationFailed => op.cache == InvalidationFailed
      case LeaseIdExhausted => s.nextSequence >= U64_MAX
      case _ => false
  {
  }

  // ----- Revisions count changes

  /** The operations that raise the revision of a lease: publish, resume, a first cancel, and marking. */
  ghost predicate Raises(c: Config, s: State, op: Op, lease: Lease)
    requires Holds(s, lease)
  {
    var record := s.leases[lease.target];
    && Permitted(c, s, op)
    && (|| ((op.PublishPending? || op.Resume?) && op.lease == lease)
        || (op.RequestCancel? && op.lease == lease && !record.state.Cancelling?)
        || (op.StaleRecoveryTickets? && !record.state.RecoveryRequired? && !Live(c, record, op.now)))
  }

  /** How many operations of a run raise the revision while the lease is held. */
  ghost function Raised(c: Config, s: State, ops: seq<Op>, lease: Lease): nat
    decreases |ops|
  {
    if ops == [] || !Holds(s, lease) then 0
    else (if Raises(c, s, ops[0], lease) then 1 else 0) + Raised(c, Next(c, s, ops[0]), ops[1..], lease)
  }

  lemma RaiseStep(c: Config, s: State, op: Op, lease: Lease)
    requires WellFormed(c, s) && Holds(s, lease) && Holds(Next(c, s, op), lease)
    ensures Next(c, s, op).leases[lease.target].revision
         == s.leases[lease.target].revision + if Raises(c, s, op, lease) then 1 else 0
  {
    hide WellFormed, Preflight;
    if op.StaleRecoveryTickets? && Permitted(c, s, op) {
      MarkingEffect(c, s, op.now);
    }
  }

  /** Over every run a revision is the earlier one plus the number of publishes, resumes, cancels and markings. */
  lemma {:induction false} RevisionCountsChanges(c: Config, s: State, ops: seq<Op>, lease: Lease)
    requires WellFormed(c, s) && Holds(s, lease) && Holds(Run(c, s, ops), lease)
    ensures Run(c, s, ops).leases[lease.target].revision
         == s.leases[lease.target].revision + Raised(c, s, ops, lease)
    decreases |ops|
  {
    if ops != [] {
      hide Next, WellFormed, Raises;
      ActiveAllAlong(c, s, ops[0], ops[1..], lease);
      StepKeepsWellFormed(c, s, ops[0]);
      RaiseStep(c, s, ops[0], lease);
      RevisionCountsChanges(c, Next(c, s, ops[0]), ops[1..], lease);
    }
  }

  /** Heartbeats of the lease and any operation on other targets. */
  predicate Bystander(op: Op, lease: Lease) {
    match op
    case Heartbeat(_, _) => true
    case BeginLogin(_, _, _) => true
    case StaleRecoveryTickets(_) => false
    case FinishStaleRecovery(ticket) => ticket.target != lease.target
    case _ => op.lease.target != lease.target
  }

  lemma BystanderStep(c: Config, s: State, op: Op, lease: Lease)
    requires Holds(s, lease) && Bystander(op, lease)
    ensures Holds(Next(c, s, op), lease)
    ensures exists at: Instant ::
      Next(c, s, op).leases[lease.target] == s.leases[lease.target].(lastActivity := at)
  {
    hide Preflight, Live;
    var record := s.leases[lease.target];
    var next := Next(c, s, op).leases[lease.target];
    assert next == record.(lastActivity := next.lastActivity);
  }

  /**
   A holder who only heartbeats, whatever happens to other targets meanwhile, keeps state, revision and
   deadline, and can still publish at the revision it knows.
   */
  lemma {:induction false} HeartbeatsKeepRevision(c: Config, s: State, ops: seq<Op>, lease: Lease)
    requires Holds(s, lease) && forall op :: op in ops ==> Bystander(op, lease)
    ensures var end := Run(c, s, ops);
      && Holds(end, lease)
      && (exists at: Instant :: end.leases[lease.target] == s.leases[lease.target].(lastActivity := at))
      && forall kind, now ::
           (Live(c, end.leases[lease.target], now) && s.leases[lease.target].revision < U64_MAX
            && (s.leases[lease.target].state.Running? || s.leases[lease.target].state.Pending?)) ==>
             Permitted(c, end, PublishPending(lease, s.leases[lease.target].revision, kind, now))
    decreases |ops|
  {
    if ops == [] {
      assert s.leases[lease.target] == s.leases[lease.target].(lastActivity := s.leases[lease.target].lastActivity);
    } else {
      hide Next, Live;
      BystanderStep(c, s, ops[0], lease);
      HeartbeatsKeepRevision(c, Next(c, s, ops[0]), ops[1..], lease);
    }
  }

  // ----- Snapshots

  lemma MillisTruncate(from: Instant, to: Instant)
    requires to - from <= 15 * 60 * SECOND
    ensures var left := if to <= from then 0 else to - from;
      Millis(from, to) * 1_000_000 <= left < (Millis(from, to) + 1) * 1_000_000
  {
  }

  /**
   A snapshot of any lease a run can reach reports the whole milliseconds to its deadline and to its idle
   deadline, so the smaller of the two tells, to the millisecond, how long the lease stays live if nothing
   more happens.
   */
  lemma SnapshotTellsLifetime(c: Config, ops: seq<Op>, t: Target, now: Instant, later: Instant)
    requires t in Run(c, Initial, ops).leases
    requires Run(c, Initial, ops).leases[t].lastActivity <= now <= later
    requires SnapshotFor(c, Run(c, Initial, ops).leases[t], now).Ok?
    ensures var record := Run(c, Initial, ops).leases[t];
      var view := SnapshotFor(c, record, now).value;
      var left := if view.deadlineRemainingMs < view.idleRemainingMs then view.deadlineRemainingMs else view.idleRemainingMs;
      && view.id == record.id && view.revision == record.revision && view.state == record.state
      && (later < now + view.deadlineRemainingMs * 1_000_000 ==> later < record.deadline)
      && (later >= now + (view.deadlineRemainingMs + 1) * 1_000_000 ==> later >= record.deadline)
      && (later < now + view.idleRemainingMs * 1_000_000 ==> later < record.lastActivity + c.idle)
      && (later >= now + (view.idleRemainingMs + 1) * 1_000_000 ==> later >= record.lastActivity + c.idle)
      && (later < now + left * 1_000_000 ==> Live(c, record, later))
      && (later >= now + (left + 1) * 1_000_000 ==> !Live(c, record, later))
  {
    var record := Run(c, Initial, ops).leases[t];
    RunKeepsTracked(c, Initial, map[], ops);
    DeadlineLaw(c, ops, t);
    assert record.deadline - record.lastActivity <= MAX_CREDENTIAL_LOGIN_TIMEOUT by {
      var h := TrackRun(c, Initial, map[], ops)[record.id];
      assert TrackedRecord(c, record, h);
    }
    hide Run, TrackRun, Live;
    MillisTruncate(now, record.deadline);
    MillisTruncate(now, record.lastActivity + c.idle);
    LiveMeans(c, record, later);
  }
}
