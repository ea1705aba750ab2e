/**
 Meaning of the login lease coordinator: its state and what one atomic step does to it.

 Time is a count of nanoseconds supplied by the caller. `Config.horizon` is the largest instant the
 platform can represent.
 */
module LeaseModel {
  import opened Bytes

  const U64_MAX: nat := 0xFFFF_FFFF_FFFF_FFFF
  const SECOND: nat := 1_000_000_000
  const MAX_ACTIVE_CREDENTIAL_LIFECYCLE_LEASES: nat := 256
  const MAX_REGISTERED_CREDENTIAL_LIFECYCLE_EPOCHS: nat := 256
  const DEFAULT_CREDENTIAL_LOGIN_TIMEOUT: nat := 5 * 60 * SECOND
  const MAX_CREDENTIAL_LOGIN_TIMEOUT: nat := 15 * 60 * SECOND
  const MAX_CREDENTIAL_LIFECYCLE_IDLE_TIMEOUT: nat := 5 * 60 * SECOND

  type Instant = nat

  /** How long a lease may go without activity: never zero, and never above the ceiling. */
  type IdleTimeout = t: nat | 0 < t <= MAX_CREDENTIAL_LIFECYCLE_IDLE_TIMEOUT witness 1

  datatype ErrorCode =
    | InvalidIdleTimeout
    | WrongOperation
    | InvalidLoginTimeout
    | ProcessEpochMismatch
    | StatusInvalidationFailed
    | LeaseAlreadyActive
    | CapacityExceeded
    | LeaseNotFound
    | LeaseMismatch
    | StaleRevision
    | InvalidTransition
    | LeaseStale
    | ClockRegression
    | RevisionExhausted
    | TimeOverflow
    | CoordinatorIdExhausted
    | CoordinatorAlreadyActive
    | CoordinatorRegistryFull
    | LeaseIdExhausted

  datatype PendingKind = BrowserCallback | DeviceCode | Otp | Password | Qr | OperatorRequired

  datatype StaleReason = Idle | Deadline

  datatype LeaseState =
    | Running
    | Pending(kind: PendingKind)
    | Cancelling
    | RecoveryRequired(reason: StaleReason)

  datatype Outcome = Succeeded | Cancelled | TimedOut | ProcessFailed

  datatype Operation = Status | Login | Logout | Refresh

  datatype LeaseId = LeaseId(epoch: nat, instance: nat, sequence: nat)

  datatype Target =
    | Profile(key: string)
    | Implicit(scope: string, provider: string, binding: string)

  datatype Plan = Plan(operation: Operation, timeoutSecs: Option<nat>, target: Target)

  /** How the status cache answered the invalidation that precedes a login. */
  datatype CacheAnswer = Invalidated | EpochMismatch | InvalidationFailed

  datatype Lease = Lease(id: LeaseId, target: Target)

  datatype Ticket = Ticket(id: LeaseId, target: Target, revision: nat, reason: StaleReason)

  datatype Record = Record(
    id: LeaseId,
    revision: nat,
    state: LeaseState,
    lastActivity: Instant,
    deadline: Instant)

  datatype Config = Config(epoch: nat, instance: nat, idle: IdleTimeout, horizon: Instant)

  datatype State = State(nextSequence: nat, leases: map<Target, Record>)

  const Initial := State(1, map[])

  datatype Op =
    | BeginLogin(plan: Plan, cache: CacheAnswer, now: Instant)
    | PublishPending(lease: Lease, expected: nat, kind: PendingKind, now: Instant)
    | Resume(lease: Lease, expected: nat, now: Instant)
    | Heartbeat(lease: Lease, now: Instant)
    | RequestCancel(lease: Lease, now: Instant)
    | Complete(lease: Lease, outcome: Outcome, now: Instant)
    | StaleRecoveryTickets(now: Instant)
    | FinishStaleRecovery(ticket: Ticket)
  {
    /** The operations that act through a lease token. */
    predicate OnLease() {
      PublishPending? || Resume? || Heartbeat? || RequestCancel? || Complete?
    }
  }

  // ----- Conditions

  function LoginTimeout(plan: Plan): nat {
    if plan.timeoutSecs.Some? then plan.timeoutSecs.value * SECOND else DEFAULT_CREDENTIAL_LOGIN_TIMEOUT
  }

  predicate Holds(s: State, lease: Lease) {
    lease.target in s.leases && s.leases[lease.target].id == lease.id
  }

  /** The lease can still act at `now`: time has not run backwards, nor out. */
  predicate Live(c: Config, record: Record, now: Instant) {
    record.lastActivity <= now < record.deadline && now - record.lastActivity < c.idle
  }

  function DueReason(c: Config, record: Record, now: Instant): Option<StaleReason> {
    if record.state.RecoveryRequired? || now < record.lastActivity then None
    else if now >= record.deadline then Some(Deadline)
    else if now - record.lastActivity >= c.idle then Some(Idle)
    else None
  }

  /** Marking proceeds only if no clock ran backwards and no due revision is exhausted. */
  ghost predicate Preflight(c: Config, s: State, now: Instant) {
    forall t :: t in s.leases && !s.leases[t].state.RecoveryRequired? ==>
      && s.leases[t].lastActivity <= now
      && (DueReason(c, s.leases[t], now).Some? ==> s.leases[t].revision < U64_MAX)
  }

  ghost predicate Permitted(c: Config, s: State, op: Op) {
    match op
    case BeginLogin(plan, cache, now) =>
      && plan.operation == Login
      && 0 < LoginTimeout(plan) <= MAX_CREDENTIAL_LOGIN_TIMEOUT
      && now + LoginTimeout(plan) <= c.horizon
      && plan.target !in s.leases
      && |s.leases| < MAX_ACTIVE_CREDENTIAL_LIFECYCLE_LEASES
      && cache == Invalidated
      && s.nextSequence < U64_MAX
    case PublishPending(lease, expected, kind, now) =>
      Holds(s, lease) && var record := s.leases[lease.target];
      && Live(c, record, now) && record.revision == expected < U64_MAX
      && (record.state.Running? || record.state.Pending?)
    case Resume(lease, expected, now) =>
      Holds(s, lease) && var record := s.leases[lease.target];
      && Live(c, record, now) && record.revision == expected < U64_MAX
      && record.state.Pending?
    case Heartbeat(lease, now) =>
      Holds(s, lease) && var record := s.leases[lease.target];
      && Live(c, record, now)
      && (record.state.Running? || record.state.Pending?)
    case RequestCancel(lease, now) =>
      Holds(s, lease) && var record := s.leases[lease.target];
      && Live(c, record, now)
      && (record.state.Cancelling? || record.revision < U64_MAX)
    case Complete(lease, outcome, now) =>
      Holds(s, lease) && var record := s.leases[lease.target];
      && !record.state.RecoveryRequired?
      && (outcome == Succeeded ==> Live(c, record, now) && !record.state.Cancelling?)
    case StaleRecoveryTickets(now) =>
      Preflight(c, s, now)
    case FinishStaleRecovery(ticket) =>
      Holds(s, Lease(ticket.id, ticket.target)) && var record := s.leases[ticket.target];
      record.revision == ticket.revision && record.state.RecoveryRequired?
  }

  // ----- Refusals

  /** Why a token does not resolve, or why its lease cannot act any more. */
  function LeaseRefusal(c: Config, s: State, lease: Lease, now: Instant): Option<ErrorCode> {
    if lease.target !in s.leases then Some(LeaseNotFound)
    else if s.leases[lease.target].id != lease.id then Some(LeaseMismatch)
    else if now < s.leases[lease.target].lastActivity then Some(ClockRegression)
    else if !Live(c, s.leases[lease.target], now) then Some(LeaseStale)
    else None
  }

  /** The first check that fails, in the order the checks are made; marking is covered by `Preflight`. */
  function Refusal(c: Config, s: State, op: Op): Option<ErrorCode> {
    match op
    case BeginLogin(plan, cache, now) =>
      if plan.operation != Login then Some(WrongOperation)
      else if LoginTimeout(plan) == 0 || LoginTimeout(plan) > MAX_CREDENTIAL_LOGIN_TIMEOUT then Some(InvalidLoginTimeout)
      else if now + LoginTimeout(plan) > c.horizon then Some(TimeOverflow)
      else if plan.target in s.leases then Some(LeaseAlreadyActive)
      else if |s.leases| >= MAX_ACTIVE_CREDENTIAL_LIFECYCLE_LEASES then Some(CapacityExceeded)
      else if cache.EpochMismatch? then Some(ProcessEpochMismatch)
      else if cache.InvalidationFailed? then Some(StatusInvalidationFailed)
      else if s.nextSequence >= U64_MAX then Some(LeaseIdExhausted)
      else None
    case PublishPending(lease, expected, _, now) =>
      if LeaseRefusal(c, s, lease, now).Some? then LeaseRefusal(c, s, lease, now)
      else if s.leases[lease.target].revision != expected then Some(StaleRevision)
      else if s.leases[lease.target].state.Cancelling? || s.leases[lease.target].state.RecoveryRequired? then Some(InvalidTransition)
      else if expected >= U64_MAX then Some(RevisionExhausted)
      else None
    case Resume(lease, expected, now) =>
      if LeaseRefusal(c, s, lease, now).Some? then LeaseRefusal(c, s, lease, now)
      else if s.leases[lease.target].revision != expected then Some(StaleRevision)
      else if !s.leases[lease.target].state.Pending? then Some(InvalidTransition)
      else if expected >= U64_MAX then Some(RevisionExhausted)
      else None
    case Heartbeat(lease, now) =>
      if LeaseRefusal(c, s, lease, now).Some? then LeaseRefusal(c, s, lease, now)
      else if s.leases[lease.target].state.Cancelling? || s.leases[lease.target].state.RecoveryRequired? then Some(InvalidTransition)
      else None
    case RequestCancel(lease, now) =>
      if LeaseRefusal(c, s, lease, now).Some? then LeaseRefusal(c, s, lease, now)
      else if !s.leases[lease.target].state.Cancelling? && s.leases[lease.target].revision >= U64_MAX then Some(RevisionExhausted)
      else None
    case Complete(lease, outcome, now) =>
      if lease.target !in s.leases then Some(LeaseNotFound)
      else if s.leases[lease.target].id != lease.id then Some(LeaseMismatch)
      else if s.leases[lease.target].state.RecoveryRequired? then Some(InvalidTransition)
      else if outcome != Succeeded then None
      else if LeaseRefusal(c, s, lease, now).Some? then LeaseRefusal(c, s, lease, now)
      else if s.leases[lease.target].state.Cancelling? then Some(InvalidTransition)
      else None
    case FinishStaleRecovery(ticket) =>
      if ticket.target !in s.leases then Some(LeaseNotFound)
      else if s.leases[ticket.target].id != ticket.id then Some(LeaseMismatch)
      else if s.leases[ticket.target].revision != ticket.revision then Some(StaleRevision)
      else if !s.leases[ticket.target].state.RecoveryRequired? then Some(InvalidTransition)
      else None
    case StaleRecoveryTickets(_) => None
  }

  /** The ordered checks let through exactly what is permitted. */
  lemma RefusedUnlessPermitted(c: Config, s: State, op: Op)
    requires !op.StaleRecoveryTickets?
    ensures Refusal(c, s, op).None? <==> Permitted(c, s, op)
  {
  }

  // ----- Effects

  function LeaseOf(c: Config, s: State, plan: Plan): Lease {
    Lease(LeaseId(c.epoch, c.instance, s.nextSequence), plan.target)
  }

  function Marked(c: Config, record: Record, now: Instant): Record {
    match DueReason(c, record, now)
    case None => record
    case Some(reason) => record.(revision := record.revision + 1, state := RecoveryRequired(reason))
  }

  ghost function Issued(c: Config, s: State, now: Instant): set<Ticket> {
    set t | t in s.leases && DueReason(c, s.leases[t], now).Some? ::
      Ticket(s.leases[t].id, t, s.leases[t].revision + 1, DueReason(c, s.leases[t], now).value)
  }

  function Touched(record: Record, op: Op): Record {
    match op
    case PublishPending(_, _, kind, now) =>
      record.(revision := record.revision + 1, state := Pending(kind), lastActivity := now)
    case Resume(_, _, now) =>
      record.(revision := record.revision + 1, state := Running, lastActivity := now)
    case Heartbeat(_, now) =>
      record.(lastActivity := now)
    case RequestCancel(_, now) =>
      if record.state.Cancelling? then record
      else record.(revision := record.revision + 1, state := Cancelling, lastActivity := now)
    case _ => record
  }

  /** The state after one atomic step; a step that is not permitted changes nothing. */
  ghost function Next(c: Config, s: State, op: Op): State {
    if !Permitted(c, s, op) then s
    else
      match op
      case BeginLogin(plan, cache, now) =>
        State(s.nextSequence + 1,
              s.leases[plan.target :=
                Record(LeaseOf(c, s, plan).id, 1, Running, now, now + LoginTimeout(plan))])
      case StaleRecoveryTickets(now) =>
        s.(leases := map t | t in s.leases :: Marked(c, s.leases[t], now))
      case FinishStaleRecovery(ticket) =>
        s.(leases := s.leases - {ticket.target})
      case Complete(lease, outcome, now) =>
        s.(leases := s.leases - {lease.target})
      case _ =>
        s.(leases := s.leases[op.lease.target := Touched(s.leases[op.lease.target], op)])
  }

  // ----- Views

  datatype Snapshot = Snapshot(
    id: LeaseId,
    revision: nat,
    state: LeaseState,
    deadlineRemainingMs: nat,
    idleRemainingMs: nat)

  function Millis(from: Instant, to: Instant): nat {
    if to <= from then 0
    else
      var ms := (to - from) / 1_000_000;
      if ms > U64_MAX then U64_MAX else ms
  }

  function SnapshotFor(c: Config, record: Record, now: Instant): Result<Snapshot, ErrorCode> {
    if now < record.lastActivity then Err(ClockRegression)
    else if record.lastActivity + c.idle > c.horizon then Err(TimeOverflow)
    else
      Ok(Snapshot(record.id, record.revision, record.state,
                  Millis(now, record.deadline), Millis(now, record.lastActivity + c.idle)))
  }
}
