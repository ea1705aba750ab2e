/**
 All coordinators of one process: the epoch registry, the instance counter, and the laws that hold
 across coordinators.
 */
module LeaseProcess {
  import opened Bytes
  import opened LeaseModel
  import LeaseRuns
  import LeaseCoordinator

  datatype Registry = Registry(activeEpochs: set<nat>, nextInstance: nat)

  /** A coordinator is admitted for an unregistered epoch while there is room and an instance left. */
  predicate Admits(registry: Registry, epoch: nat) {
    && epoch !in registry.activeEpochs
    && |registry.activeEpochs| < MAX_REGISTERED_CREDENTIAL_LIFECYCLE_EPOCHS
    && registry.nextInstance < U64_MAX
  }

  // ----- The registry object

  class EpochRegistry {
    var activeEpochs: set<nat>
    var nextInstance: nat

    ghost function Now(): Registry
      reads this
    {
      Registry(activeEpochs, nextInstance)
    }

    constructor ()
      ensures Now() == Registry({}, 1)
    {
      activeEpochs, nextInstance := {}, 1;
    }

    method UnregisterEpoch(epoch: nat)
      modifies this`activeEpochs
      ensures activeEpochs == old(activeEpochs) - {epoch}
    {
      activeEpochs := activeEpochs - {epoch};
    }

    /** Registers the epoch first; running out of instances takes the registration back. */
    method NewCoordinator(epoch: nat, idle: IdleTimeout, horizon: Instant)
      returns (r: Result<LeaseCoordinator.Coordinator, ErrorCode>)
      modifies this
      ensures r.Ok? <==> Admits(old(Now()), epoch)
      ensures r.Ok? ==>
        && fresh(r.value)
        && r.value.config == Config(epoch, old(nextInstance), idle, horizon)
        && r.value.Now() == Initial
        && Now() == Registry(old(activeEpochs) + {epoch}, old(nextInstance) + 1)
      ensures r.Err? ==> Now() == old(Now())
      ensures forall p: Process :: p.registry == old(Now()) ==>
        var next := Step(p, New(epoch, idle, horizon));
        && Now() == next.registry
        && next.live == if r.Err? then p.live
                        else p.live[old(nextInstance) := LiveCoordinator(r.value.config, r.value.Now())]
      ensures r.Err? ==>
        r.error ==
          if epoch in activeEpochs then CoordinatorAlreadyActive
          else if |activeEpochs| >= MAX_REGISTERED_CREDENTIAL_LIFECYCLE_EPOCHS then CoordinatorRegistryFull
          else CoordinatorIdExhausted
    {
      if epoch in activeEpochs {
        return Err(CoordinatorAlreadyActive);
      }
      if |activeEpochs| >= MAX_REGISTERED_CREDENTIAL_LIFECYCLE_EPOCHS {
        return Err(CoordinatorRegistryFull);
      }
      activeEpochs := activeEpochs + {epoch};
      var instance := nextInstance;
      if nextInstance >= U64_MAX {
        UnregisterEpoch(epoch);
        assert activeEpochs == old(activeEpochs);
        return Err(CoordinatorIdExhausted);
      }
      nextInstance := nextInstance + 1;
      var coordinator := new LeaseCoordinator.Coordinator(Config(epoch, instance, idle, horizon));
      r := Ok(coordinator);
    }

    /** Dropping a coordinator frees its epoch only if it holds no lease. */
    method DropCoordinator(coordinator: LeaseCoordinator.Coordinator)
      modifies this
      ensures nextInstance == old(nextInstance)
      ensures activeEpochs ==
        if coordinator.leases == map[] then old(activeEpochs) - {coordinator.config.epoch} else old(activeEpochs)
      ensures forall p: Process, instance: nat ::
        p.registry == old(Now()) && instance in p.live
        && p.live[instance] == LiveCoordinator(coordinator.config, coordinator.Now()) ==>
          Now() == Step(p, Drop(instance)).registry
    {
      if coordinator.leases == map[] {
        UnregisterEpoch(coordinator.config.epoch);
      }
    }
  }

  // ----- Runs of a whole process

  datatype LiveCoordinator = LiveCoordinator(config: Config, state: State)

  /** `issued` collects every lease identifier ever handed out in the process. */
  datatype Process = Process(registry: Registry, live: map<nat, LiveCoordinator>, issued: set<LeaseId>)

  const Started := Process(Registry({}, 1), map[], {})

  datatype ProcessOp =
    | New(epoch: nat, idle: IdleTimeout, horizon: Instant)
    | Drop(instance: nat)
    | Call(instance: nat, op: Op)

  ghost function Step(p: Process, op: ProcessOp): Process {
    match op
    case New(epoch, idle, horizon) =>
      if !Admits(p.registry, epoch) then p
      else
        var instance := p.registry.nextInstance;
        Process(Registry(p.registry.activeEpochs + {epoch}, instance + 1),
                p.live[instance := LiveCoordinator(Config(epoch, instance, idle, horizon), Initial)],
                p.issued)
    case Drop(instance) =>
      if instance !in p.live then p
      else
        var gone := p.live[instance];
        Process(p.registry.(activeEpochs :=
                  if gone.state.leases == map[] then p.registry.activeEpochs - {gone.config.epoch}
                  else p.registry.activeEpochs),
                p.live - {instance},
                p.issued)
    case Call(instance, call) =>
      if instance !in p.live then p
      else
        var c := p.live[instance];
        Process(p.registry,
                p.live[instance := LiveCoordinator(c.config, Next(c.config, c.state, call))],
                if call.BeginLogin? && Permitted(c.config, c.state, call)
                then p.issued + {LeaseOf(c.config, c.state, call.plan).id} else p.issued)
  }

  ghost function Steps(p: Process, ops: seq<ProcessOp>): Process
    decreases |ops|
  {
    if ops == [] then p else Steps(Step(p, ops[0]), ops[1..])
  }

  ghost predicate GoodCoordinator(p: Process, i: nat)
    requires i in p.live
  {
    && p.live[i].config.instance == i < p.registry.nextInstance
    && p.live[i].config.epoch in p.registry.activeEpochs
    && LeaseRuns.WellFormed(p.live[i].config, p.live[i].state)
  }

  /** One owner per epoch, and every identifier handed out is behind its counters. */
  ghost predicate Consistent(p: Process) {
    && |p.registry.activeEpochs| <= MAX_REGISTERED_CREDENTIAL_LIFECYCLE_EPOCHS
    && p.registry.nextInstance <= U64_MAX
    && (forall i :: i in p.live ==> GoodCoordinator(p, i))
    && (forall i, j :: i in p.live && j in p.live && p.live[i].config.epoch == p.live[j].config.epoch ==> i == j)
    && (forall id :: id in p.issued ==>
          && id.instance < p.registry.nextInstance
          && (id.instance in p.live ==> id.sequence < p.live[id.instance].state.nextSequence))
  }

  lemma CallFacts(c: LiveCoordinator, call: Op)
    requires LeaseRuns.WellFormed(c.config, c.state)
    ensures LeaseRuns.WellFormed(c.config, Next(c.config, c.state, call))
    ensures c.state.nextSequence <= Next(c.config, c.state, call).nextSequence
    ensures call.BeginLogin? && Permitted(c.config, c.state, call) ==>
      Next(c.config, c.state, call).nextSequence == c.state.nextSequence + 1
  {
    LeaseRuns.StepKeepsWellFormed(c.config, c.state, call);
    LeaseRuns.StepOnTarget(c.config, c.state, call, Profile(""));
  }

  lemma CallKeepsConsistent(p: Process, op: ProcessOp)
    requires Consistent(p) && op.Call?
    ensures Consistent(Step(p, op))
  {
    hide Next, Permitted, LeaseRuns.WellFormed;
    if op.instance in p.live {
      assert GoodCoordinator(p, op.instance);
      CallFacts(p.live[op.instance], op.op);
    }
  }

  lemma InitialIsWellFormed(epoch: nat, instance: nat, idle: IdleTimeout, horizon: Instant)
    ensures LeaseRuns.WellFormed(Config(epoch, instance, idle, horizon), Initial)
  {
  }

  lemma NewKeepsConsistent(p: Process, op: ProcessOp)
    requires Consistent(p) && op.New?
    ensures Consistent(Step(p, op))
  {
    hide Next, Permitted, LeaseRuns.WellFormed;
    InitialIsWellFormed(op.epoch, p.registry.nextInstance, op.idle, op.horizon);
    forall i | i in p.live
      ensures p.live[i].config.instance == i < p.registry.nextInstance
      ensures p.live[i].config.epoch in p.registry.activeEpochs
    {
      assert GoodCoordinator(p, i);
    }
  }

  lemma DropKeepsConsistent(p: Process, op: ProcessOp)
    requires Consistent(p) && op.Drop?
    ensures Consistent(Step(p, op))
  {
    hide Next, Permitted, LeaseRuns.WellFormed;
    if op.instance in p.live {
      var epochs := p.registry.activeEpochs;
      assert |epochs - {p.live[op.instance].config.epoch}| <= |epochs|;
      forall i | i in Step(p, op).live
        ensures GoodCoordinator(Step(p, op), i)
      {
        assert GoodCoordinator(p, i);
      }
    }
  }

  lemma StepKeepsConsistent(p: Process, op: ProcessOp)
    requires Consistent(p)
    ensures Consistent(Step(p, op))
  {
    hide Consistent, Step;
    match op {
      case New(_, _, _) =>
        NewKeepsConsistent(p, op);
      case Drop(_) =>
        DropKeepsConsistent(p, op);
      case Call(_, _) =>
        CallKeepsConsistent(p, op);
    }
  }

  lemma {:induction false} StepsKeepConsistent(p: Process, ops: seq<ProcessOp>)
    requires Consistent(p)
    ensures Consistent(Steps(p, ops))
    decreases |ops|
  {
    if ops != [] {
      StepKeepsConsistent(p, ops[0]);
      StepsKeepConsistent(Step(p, ops[0]), ops[1..]);
    }
  }

  /** No two live coordinators ever serve the same process epoch. */
  lemma OneOwnerPerEpoch(ops: seq<ProcessOp>, i: nat, j: nat)
    requires i in Steps(Started, ops).live && j in Steps(Started, ops).live && i != j
    ensures Steps(Started, ops).live[i].config.epoch != Steps(Started, ops).live[j].config.epoch
  {
    StepsKeepConsistent(Started, ops);
  }

  /** No lease identifier is handed out twice, by any coordinator of the process. */
  lemma IdsAreNeverReused(ops: seq<ProcessOp>, instance: nat, login: Op)
    requires login.BeginLogin? && instance in Steps(Started, ops).live
    requires var c := Steps(Started, ops).live[instance]; Permitted(c.config, c.state, login)
    ensures var c := Steps(Started, ops).live[instance];
      var id := LeaseOf(c.config, c.state, login.plan).id;
      && id !in Steps(Started, ops).issued
      && id.epoch == c.config.epoch && id.instance < U64_MAX && id.sequence < U64_MAX
  {
    StepsKeepConsistent(Started, ops);
  }

  /** The epoch is registered but nobody serves it any more. */
  ghost predicate Reserved(p: Process, epoch: nat) {
    epoch in p.registry.activeEpochs && forall i :: i in p.live ==> p.live[i].config.epoch != epoch
  }

  /** Dropping a coordinator reserves its epoch exactly when a lease was still active. */
  lemma DropReservesExactlyWhenActive(p: Process, instance: nat)
    requires Consistent(p) && instance in p.live
    ensures Reserved(Step(p, Drop(instance)), p.live[instance].config.epoch) <==>
      p.live[instance].state.leases != map[]
    ensures p.live[instance].state.leases == map[] && p.registry.nextInstance < U64_MAX ==>
      Admits(Step(p, Drop(instance)).registry, p.live[instance].config.epoch)
  {
    hide Next, Permitted, LeaseRuns.WellFormed;
    var epochs, epoch := p.registry.activeEpochs, p.live[instance].config.epoch;
    assert GoodCoordinator(p, instance);
    assert |epochs - {epoch}| == |epochs| - 1;
  }

  lemma ReservedStep(p: Process, op: ProcessOp, epoch: nat)
    requires Consistent(p) && Reserved(p, epoch)
    ensures Reserved(Step(p, op), epoch)
  {
    hide Next, Permitted, LeaseRuns.WellFormed;
  }

  /** A reserved epoch is never served again in this process. */
  lemma {:induction false} ReservedForever(p: Process, ops: seq<ProcessOp>, epoch: nat)
    requires Consistent(p) && Reserved(p, epoch)
    ensures Reserved(Steps(p, ops), epoch)
    ensures forall idle, horizon :: Step(Steps(p, ops), New(epoch, idle, horizon)) == Steps(p, ops)
    decreases |ops|
  {
    hide Consistent, Next, Permitted;
    if ops != [] {
      hide Step, Reserved;
      StepKeepsConsistent(p, ops[0]);
      ReservedStep(p, ops[0], epoch);
      ReservedForever(Step(p, ops[0]), ops[1..], epoch);
    }
  }
}
