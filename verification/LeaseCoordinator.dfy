/**
 The login lease coordinator. Each method is one critical section of the coordinator's lock, proved
 against `LeaseModel.Next`; an error leaves the state alone, except that a snapshot may overflow
 after its change was made.
 */
module LeaseCoordinator {
  import opened Bytes
  import opened LeaseModel

  /** The timeouts a coordinator can have; `LeaseRuns.IdleTimeoutBounds` says what the range is for. */
  method NewIdleTimeout(value: nat) returns (r: Result<IdleTimeout, ErrorCode>)
    ensures r.Ok? <==> 0 < value <= MAX_CREDENTIAL_LIFECYCLE_IDLE_TIMEOUT
    ensures r.Ok? ==> r.value == value
    ensures r.Err? ==> r.error == InvalidIdleTimeout
  {
    if value == 0 || value > MAX_CREDENTIAL_LIFECYCLE_IDLE_TIMEOUT {
      return Err(InvalidIdleTimeout);
    }
    r := Ok(value);
  }

  datatype Completion = Completion(id: LeaseId, outcome: Outcome, freshStatusRequired: bool)

  class Coordinator {
    const config: Config
    var nextSequence: nat
    var leases: map<Target, Record>

    ghost function Now(): State
      reads this
    {
      State(nextSequence, leases)
    }

    constructor (config: Config)
      ensures this.config == config && Now() == Initial
    {
      this.config := config;
      nextSequence, leases := 1, map[];
    }

    /** The reason a record is stale at `now`, or an error if time ran backwards. */
    function StaleReasonAt(record: Record, now: Instant): Result<Option<StaleReason>, ErrorCode> {
      if now < record.lastActivity then Err(ClockRegression)
      else if now >= record.deadline then Ok(Some(Deadline))
      else if now - record.lastActivity >= config.idle then Ok(Some(Idle))
      else Ok(None)
    }

    function EnsureLive(record: Record, now: Instant): (r: Option<ErrorCode>)
      ensures r.None? <==> Live(config, record, now)
    {
      var reason := StaleReasonAt(record, now);
      if reason.Err? then Some(reason.error)
      else if reason.value.Some? then Some(LeaseStale)
      else None
    }

    /** Resolves a token: its target must still be leased under the very same identifier. */
    method ExactRecord(lease: Lease) returns (r: Result<Record, ErrorCode>)
      ensures r.Ok? <==> Holds(Now(), lease)
      ensures r.Ok? ==> r.value == leases[lease.target]
      ensures r == Err(LeaseNotFound) <==> lease.target !in leases
      ensures r.Err? ==> r.error in {LeaseNotFound, LeaseMismatch}
    {
      if lease.target !in leases {
        return Err(LeaseNotFound);
      }
      if leases[lease.target].id != lease.id {
        return Err(LeaseMismatch);
      }
      r := Ok(leases[lease.target]);
    }

    method BeginLogin(plan: Plan, cache: CacheAnswer, now: Instant) returns (r: Result<Lease, ErrorCode>)
      modifies this
      ensures Now() == Next(config, old(Now()), Op.BeginLogin(plan, cache, now))
      ensures r.Ok? <==> Permitted(config, old(Now()), Op.BeginLogin(plan, cache, now))
      ensures r.Ok? ==>
        && r.value == LeaseOf(config, old(Now()), plan)
        && Holds(Now(), r.value)
        && plan.target !in old(leases)
      ensures r.Err? ==> Some(r.error) == Refusal(config, old(Now()), Op.BeginLogin(plan, cache, now))
    {
      if plan.operation != Login {
        return Err(WrongOperation);
      }
      var timeout := LoginTimeout(plan);
      if timeout == 0 || timeout > MAX_CREDENTIAL_LOGIN_TIMEOUT {
        return Err(InvalidLoginTimeout);
      }
      if now + timeout > config.horizon {
        return Err(TimeOverflow);
      }
      var deadline := now + timeout;
      if plan.target in leases {
        return Err(LeaseAlreadyActive);
      }
      if |leases| >= MAX_ACTIVE_CREDENTIAL_LIFECYCLE_LEASES {
        return Err(CapacityExceeded);
      }
      if cache != Invalidated {
        return Err(if cache == EpochMismatch then ProcessEpochMismatch else StatusInvalidationFailed);
      }
      var sequence := nextSequence;
      if nextSequence >= U64_MAX {
        return Err(LeaseIdExhausted);
      }
      nextSequence := nextSequence + 1;
      var id := LeaseId(config.epoch, config.instance, sequence);
      leases := leases[plan.target := Record(id, 1, Running, now, deadline)];
      r := Ok(Lease(id, plan.target));
    }

    method SnapshotOf(lease: Lease, now: Instant) returns (r: Result<Snapshot, ErrorCode>)
      ensures r == if lease.target !in leases then Err(LeaseNotFound)
                   else if !Holds(Now(), lease) then Err(LeaseMismatch)
                   else SnapshotFor(config, leases[lease.target], now)
    {
      var record := ExactRecord(lease);
      if record.Err? {
        return Err(record.error);
      }
      r := SnapshotFor(config, record.value, now);
    }

    method PublishPending(lease: Lease, expected: nat, kind: PendingKind, now: Instant)
      returns (r: Result<Snapshot, ErrorCode>)
      modifies this
      ensures Now() == Next(config, old(Now()), Op.PublishPending(lease, expected, kind, now))
      ensures r.Ok? ==>
        && Permitted(config, old(Now()), Op.PublishPending(lease, expected, kind, now))
        && r.value.state == Pending(kind) && r.value.revision == expected + 1
      ensures Permitted(config, old(Now()), Op.PublishPending(lease, expected, kind, now)) ==>
        Holds(Now(), lease) && r == SnapshotFor(config, leases[lease.target], now)
      ensures Permitted(config, old(Now()), Op.PublishPending(lease, expected, kind, now)) ==>
        (r == Err(TimeOverflow) <==> now + config.idle > config.horizon) && (r.Err? ==> r.error == TimeOverflow)
      ensures !Permitted(config, old(Now()), Op.PublishPending(lease, expected, kind, now)) ==>
        r.Err? && Some(r.error) == Refusal(config, old(Now()), Op.PublishPending(lease, expected, kind, now))
    {
      var exact := ExactRecord(lease);
      if exact.Err? {
        return Err(exact.error);
      }
      var record := exact.value;
      var stale := EnsureLive(record, now);
      if stale.Some? {
        return Err(stale.value);
      }
      if record.revision != expected {
        return Err(StaleRevision);
      }
      if record.state.Cancelling? || record.state.RecoveryRequired? {
        return Err(InvalidTransition);
      }
      if record.revision >= U64_MAX {
        return Err(RevisionExhausted);
      }
      record := record.(revision := record.revision + 1);
      record := record.(state := Pending(kind));
      record := record.(lastActivity := now);
      leases := leases[lease.target := record];
      r := SnapshotFor(config, record, now);
    }

    method Resume(lease: Lease, expected: nat, now: Instant) returns (r: Result<Snapshot, ErrorCode>)
      modifies this
      ensures Now() == Next(config, old(Now()), Op.Resume(lease, expected, now))
      ensures r.Ok? ==>
        && Permitted(config, old(Now()), Op.Resume(lease, expected, now))
        && r.value.state == Running && r.value.revision == expected + 1
      ensures Permitted(config, old(Now()), Op.Resume(lease, expected, now)) ==>
        Holds(Now(), lease) && r == SnapshotFor(config, leases[lease.target], now)
      ensures Permitted(config, old(Now()), Op.Resume(lease, expected, now)) ==>
        (r == Err(TimeOverflow) <==> now + config.idle > config.horizon) && (r.Err? ==> r.error == TimeOverflow)
      ensures !Permitted(config, old(Now()), Op.Resume(lease, expected, now)) ==>
        r.Err? && Some(r.error) == Refusal(config, old(Now()), Op.Resume(lease, expected, now))
    {
      var exact := ExactRecord(lease);
      if exact.Err? {
        return Err(exact.error);
      }
      var record := exact.value;
      var stale := EnsureLive(record, now);
      if stale.Some? {
        return Err(stale.value);
      }
      if record.revision != expected {
        return Err(StaleRevision);
      }
      if !record.state.Pending? {
        return Err(InvalidTransition);
      }
      if record.revision >= U64_MAX {
        return Err(RevisionExhausted);
      }
      record := record.(revision := record.revision + 1);
      record := record.(state := Running);
      record := record.(lastActivity := now);
      leases := leases[lease.target := record];
      r := SnapshotFor(config, record, now);
    }

    method Heartbeat(lease: Lease, now: Instant) returns (r: Result<Snapshot, ErrorCode>)
      modifies this
      ensures Now() == Next(config, old(Now()), Op.Heartbeat(lease, now))
      ensures r.Ok? ==> Permitted(config, old(Now()), Op.Heartbeat(lease, now))
      ensures Permitted(config, old(Now()), Op.Heartbeat(lease, now)) ==>
        Holds(Now(), lease) && r == SnapshotFor(config, leases[lease.target], now)
      ensures Permitted(config, old(Now()), Op.Heartbeat(lease, now)) ==>
        (r == Err(TimeOverflow) <==> now + config.idle > config.horizon) && (r.Err? ==> r.error == TimeOverflow)
      ensures !Permitted(config, old(Now()), Op.Heartbeat(lease, now)) ==>
        r.Err? && Some(r.error) == Refusal(config, old(Now()), Op.Heartbeat(lease, now))
    {
      var exact := ExactRecord(lease);
      if exact.Err? {
        return Err(exact.error);
      }
      var record := exact.value;
      var stale := EnsureLive(record, now);
      if stale.Some? {
        return Err(stale.value);
      }
      if record.state.Cancelling? || record.state.RecoveryRequired? {
        return Err(InvalidTransition);
      }
      record := record.(lastActivity := now);
      leases := leases[lease.target := record];
      r := SnapshotFor(config, record, now);
    }

    method RequestCancel(lease: Lease, now: Instant) returns (r: Result<Snapshot, ErrorCode>)
      modifies this
      ensures Now() == Next(config, old(Now()), Op.RequestCancel(lease, now))
      ensures r.Ok? ==>
        && Permitted(config, old(Now()), Op.RequestCancel(lease, now))
        && r.value.state == Cancelling
      ensures Permitted(config, old(Now()), Op.RequestCancel(lease, now)) ==>
        Holds(Now(), lease) && r == SnapshotFor(config, leases[lease.target], now)
      ensures Permitted(config, old(Now()), Op.RequestCancel(lease, now)) ==>
        var activity := if old(leases)[lease.target].state.Cancelling? then old(leases)[lease.target].lastActivity else now;
        && (r == Err(TimeOverflow) <==> activity + config.idle > config.horizon)
        && (r.Err? ==> r.error == TimeOverflow)
      ensures !Permitted(config, old(Now()), Op.RequestCancel(lease, now)) ==>
        r.Err? && Some(r.error) == Refusal(config, old(Now()), Op.RequestCancel(lease, now))
    {
      var exact := ExactRecord(lease);
      if exact.Err? {
        return Err(exact.error);
      }
      var record := exact.value;
      var stale := EnsureLive(record, now);
      if stale.Some? {
        return Err(stale.value);
      }
      if !record.state.Cancelling? {
        if record.revision >= U64_MAX {
          return Err(RevisionExhausted);
        }
        record := record.(revision := record.revision + 1);
        record := record.(state := Cancelling);
        record := record.(lastActivity := now);
      }
      leases := leases[lease.target := record];
      r := SnapshotFor(config, record, now);
    }

    /** Releases the target; only a live, uncancelled lease may end as succeeded. */
    method Complete(lease: Lease, outcome: Outcome, now: Instant) returns (r: Result<Completion, ErrorCode>)
      modifies this
      ensures Now() == Next(config, old(Now()), Op.Complete(lease, outcome, now))
      ensures r.Ok? <==> Permitted(config, old(Now()), Op.Complete(lease, outcome, now))
      ensures r.Err? ==> Some(r.error) == Refusal(config, old(Now()), Op.Complete(lease, outcome, now))
      ensures r.Ok? ==>
        && r.value == Completion(lease.id, outcome, outcome == Succeeded)
        && lease.target !in leases
    {
      var exact := ExactRecord(lease);
      if exact.Err? {
        return Err(exact.error);
      }
      var record := exact.value;
      if record.state.RecoveryRequired? {
        return Err(InvalidTransition);
      }
      if outcome == Succeeded {
        var stale := EnsureLive(record, now);
        if stale.Some? {
          return Err(stale.value);
        }
        if record.state.Cancelling? {
          return Err(InvalidTransition);
        }
      }
      leases := leases - {lease.target};
      r := Ok(Completion(lease.id, outcome, outcome == Succeeded));
    }

    /** Collects every stale target, or fails without having marked any. */
    method CollectDue(now: Instant) returns (r: Result<seq<Target>, ErrorCode>)
      ensures r.Ok? <==> Preflight(config, Now(), now)
      ensures r.Ok? ==>
        && (forall t :: t in r.value <==> t in leases && DueReason(config, leases[t], now).Some?)
        && (forall i, j :: 0 <= i < j < |r.value| ==> r.value[i] != r.value[j])
      ensures r == Err(ClockRegression) ==>
        exists t :: t in leases && !leases[t].state.RecoveryRequired? && now < leases[t].lastActivity
      ensures r == Err(RevisionExhausted) ==>
        exists t :: t in leases && DueReason(config, leases[t], now).Some? && leases[t].revision >= U64_MAX
      ensures r.Err? ==> r.error in {ClockRegression, RevisionExhausted}
    {
      var unseen := leases.Keys;
      var due: seq<Target> := [];
      while unseen != {}
        invariant unseen <= leases.Keys
        invariant forall t :: t in leases && t !in unseen && !leases[t].state.RecoveryRequired? ==>
          && leases[t].lastActivity <= now
          && (DueReason(config, leases[t], now).Some? ==> leases[t].revision < U64_MAX)
        invariant forall t :: t in due <==>
          t in leases && t !in unseen && DueReason(config, leases[t], now).Some?
        invariant forall i, j :: 0 <= i < j < |due| ==> due[i] != due[j]
        decreases |unseen|
      {
        var target :| target in unseen;
        var record := leases[target];
        unseen := unseen - {target};
        if !record.state.RecoveryRequired? {
          var reason := StaleReasonAt(record, now);
          if reason.Err? {
            return Err(reason.error);
          }
          if reason.value.Some? {
            if record.revision >= U64_MAX {
              return Err(RevisionExhausted);
            }
            due := due + [target];
          }
        }
      }
      r := Ok(due);
    }

    /** Marks every stale lease and issues one ticket for each, in one step. */
    method StaleRecoveryTickets(now: Instant) returns (r: Result<seq<Ticket>, ErrorCode>)
      modifies this
      ensures Now() == Next(config, old(Now()), Op.StaleRecoveryTickets(now))
      ensures r.Ok? <==> Permitted(config, old(Now()), Op.StaleRecoveryTickets(now))
      ensures r.Ok? ==>
        && (set ticket | ticket in r.value) == Issued(config, old(Now()), now)
        && (forall i, j :: 0 <= i < j < |r.value| ==> r.value[i].target != r.value[j].target)
      ensures r == Err(ClockRegression) ==>
        exists t :: t in leases && !leases[t].state.RecoveryRequired? && now < leases[t].lastActivity
      ensures r == Err(RevisionExhausted) ==>
        exists t :: t in leases && DueReason(config, leases[t], now).Some? && leases[t].revision >= U64_MAX
      ensures r.Err? ==> r.error in {ClockRegression, RevisionExhausted}
    {
      var collected := CollectDue(now);
      if collected.Err? {
        return Err(collected.error);
      }
      var due := collected.value;
      var tickets: seq<Ticket> := [];
      ghost var before := leases;
      for i := 0 to |due|
        invariant leases.Keys == before.Keys && nextSequence == old(nextSequence)
        invariant forall k :: 0 <= k < i ==> leases[due[k]] == Marked(config, before[due[k]], now)
        invariant forall t :: t in leases && t !in due[..i] ==> leases[t] == before[t]
        invariant |tickets| == i
        invariant forall k :: 0 <= k < i ==>
          tickets[k] == Ticket(before[due[k]].id, due[k], before[due[k]].revision + 1,
                               DueReason(config, before[due[k]], now).value)
      {
        var target := due[i];
        assert target !in due[..i];
        var record := leases[target];
        var reason := DueReason(config, record, now).value;
        record := record.(revision := record.revision + 1);
        record := record.(state := RecoveryRequired(reason));
        leases := leases[target := record];
        tickets := tickets + [Ticket(record.id, target, record.revision, reason)];
      }
      hide DueReason;
      TicketsAreIssued(config, State(nextSequence, before), now, due, tickets);
      assert leases == map t | t in before :: Marked(config, before[t], now);
      r := Ok(tickets);
    }

    /** Consumes a ticket: the marked lease it names is released, and nothing else. */
    method FinishStaleRecovery(ticket: Ticket) returns (r: Result<LeaseId, ErrorCode>)
      modifies this
      ensures Now() == Next(config, old(Now()), Op.FinishStaleRecovery(ticket))
      ensures r.Ok? <==> Permitted(config, old(Now()), Op.FinishStaleRecovery(ticket))
      ensures r.Err? ==> Some(r.error) == Refusal(config, old(Now()), Op.FinishStaleRecovery(ticket))
      ensures r.Ok? ==> r.value == ticket.id && ticket.target !in leases
    {
      if ticket.target !in leases {
        return Err(LeaseNotFound);
      }
      var record := leases[ticket.target];
      if record.id != ticket.id {
        return Err(LeaseMismatch);
      }
      if record.revision != ticket.revision {
        return Err(StaleRevision);
      }
      if !record.state.RecoveryRequired? {
        return Err(InvalidTransition);
      }
      leases := leases - {ticket.target};
      r := Ok(ticket.id);
    }
  }

  lemma TicketsAreIssued(c: Config, s: State, now: Instant, due: seq<Target>, tickets: seq<Ticket>)
    requires forall t :: t in due <==> t in s.leases && DueReason(c, s.leases[t], now).Some?
    requires |tickets| == |due|
    requires forall k :: 0 <= k < |due| ==>
      tickets[k] == Ticket(s.leases[due[k]].id, due[k], s.leases[due[k]].revision + 1,
                           DueReason(c, s.leases[due[k]], now).value)
    ensures (set ticket | ticket in tickets) == Issued(c, s, now)
  {
    forall ticket | ticket in Issued(c, s, now)
      ensures ticket in tickets
    {
      var k :| 0 <= k < |due| && due[k] == ticket.target;
      assert tickets[k] == ticket;
    }
    forall ticket | ticket in tickets
      ensures ticket in Issued(c, s, now)
    {
      var k :| 0 <= k < |tickets| && tickets[k] == ticket;
      assert due[k] in due;
    }
  }
}
