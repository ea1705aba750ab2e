/**
 Interpretation of one authentication status command: bounded JSON, a shared work budget over the
 declared rules, and the identity check that guards readiness.
 */
module StatusEvaluation {
  import opened Bytes
  import opened Ordering
  import Json
  import JsonNesting

  const MAX_LIFECYCLE_STATUS_JSON_NODES: nat := 16 * 1024
  const MAX_LIFECYCLE_STATUS_EVALUATION_WORK: nat := 256 * 1024

  datatype ObservedState = Missing | InteractionRequired | Ready | Expired | Revoked | Denied | Error

  datatype AuthState = Observed(state: ObservedState) | IdentityMismatch

  datatype Operation = Status | Login | Logout | Refresh

  datatype Termination = Exited(code: nat) | Signaled | TimedOut | Cancelled | SpawnFailed

  datatype EvaluationError =
    | WrongOperation
    | MissingStatusContract
    | WasCancelled
    | WasTimedOut
    | ProcessFailed
    | MalformedOutput
    | OutputTooDeep
    | OutputTooComplex
    | EvaluationLimitExceeded
    | UnmappedStatus
    | AmbiguousStatus
    | MissingIdentity
    | InvalidIdentity

  type I64 = n: int | -0x8000_0000_0000_0000 <= n < 0x8000_0000_0000_0000

  datatype Constant = StringConstant(text: string) | BooleanConstant(bit: bool) | IntegerConstant(n: I64) | NullConstant

  datatype Predicate =
    | Equals(pointer: string, constant: Constant)
    | Exists(pointer: string)
    | Absent(pointer: string)
    | ArrayContainsAllStrings(pointer: string, values: set<string>)

  datatype Rule = Rule(state: ObservedState, exitCodes: set<nat>, all: seq<Predicate>)

  datatype Format = ExitCode | JsonOutput

  datatype Contract = Contract(format: Format, rules: seq<Rule>)

  datatype Selector = Exact(pointer: string) | IgnoringAsciiCase(pointer: string)

  datatype IdentityContract = NoIdentity | ProfileExpected(selector: Selector) | Unverified

  datatype Verification = NotEvaluated | NotDeclared | ProviderUnverified | Matched | Mismatched

  datatype Plan = Plan(
    operation: Operation,
    contract: Option<Contract>,
    identity: IdentityContract,
    expected: Option<string>)

  datatype StatusResult = StatusResult(
    state: AuthState,
    verification: Verification,
    expected: Option<string>,
    actual: Option<string>)
  {
    predicate IsExecutionReady() {
      state == Observed(Ready) && verification in {NotDeclared, ProviderUnverified, Matched}
    }
  }

  /**
   Library behaviour the evaluation builds on: parsing bytes, resolving a JSON pointer, and the
   validity of an observed identity.
   */
  datatype Library = Library(
    parse: Bytes -> Option<Json.Value>,
    pointer: (Json.Value, string) -> Option<Json.Value>,
    identityOk: string -> bool)

  // ----- One rule

  function At(lib: Library, payload: Option<Json.Value>, pointer: string): Option<Json.Value> {
    if payload.None? then None else lib.pointer(payload.value, pointer)
  }

  predicate ConstantMatches(expected: Constant, actual: Json.Value) {
    match expected
    case StringConstant(text) => actual == Json.Str(text)
    case BooleanConstant(bit) => actual == Json.Bool(bit)
    case IntegerConstant(n) => actual.Num? && actual.number.Integer? && actual.number.whole == n
    case NullConstant => actual.Null?
  }

  predicate PredicateHolds(lib: Library, payload: Option<Json.Value>, p: Predicate) {
    && payload.Some?
    && var found := At(lib, payload, p.pointer);
       match p
       case Equals(_, constant) => found.Some? && ConstantMatches(constant, found.value)
       case Exists(_) => found.Some?
       case Absent(_) => found.None?
       case ArrayContainsAllStrings(_, values) =>
         found.Some? && found.value.Array? && forall text :: text in values ==> Json.Str(text) in found.value.items
  }

  function PredicateCost(lib: Library, payload: Option<Json.Value>, p: Predicate): nat {
    var found := At(lib, payload, p.pointer);
    1 + if p.ArrayContainsAllStrings? && found.Some? && found.value.Array?
        then |found.value.items| + |p.values| else 0
  }

  predicate AllHold(lib: Library, payload: Option<Json.Value>, ps: seq<Predicate>) {
    forall p :: p in ps ==> PredicateHolds(lib, payload, p)
  }

  /** Predicates are charged up to and including the first that fails. */
  function AllCost(lib: Library, payload: Option<Json.Value>, ps: seq<Predicate>): nat {
    if ps == [] then 0
    else
      PredicateCost(lib, payload, ps[0])
      + if PredicateHolds(lib, payload, ps[0]) then AllCost(lib, payload, ps[1..]) else 0
  }

  predicate RuleMatches(lib: Library, exitCode: nat, payload: Option<Json.Value>, rule: Rule) {
    exitCode in rule.exitCodes && AllHold(lib, payload, rule.all)
  }

  /** What a rule costs; one for another exit code costs nothing. */
  function RuleCost(lib: Library, exitCode: nat, payload: Option<Json.Value>): Rule -> nat {
    (rule: Rule) => if exitCode in rule.exitCodes then 1 + AllCost(lib, payload, rule.all) else 0
  }

  // ----- The verdict over all rules

  function MatchedStates(lib: Library, exitCode: nat, payload: Option<Json.Value>, rules: seq<Rule>): set<ObservedState> {
    set rule | rule in rules && RuleMatches(lib, exitCode, payload, rule) :: rule.state
  }

  ghost function Verdict(lib: Library, exitCode: nat, payload: Option<Json.Value>, rules: seq<Rule>)
    : (v: Result<ObservedState, EvaluationError>)
  {
    var states := MatchedStates(lib, exitCode, payload, rules);
    if Sum(RuleCost(lib, exitCode, payload), rules) > MAX_LIFECYCLE_STATUS_EVALUATION_WORK then Err(EvaluationLimitExceeded)
    else if states == {} then Err(UnmappedStatus)
    else if |states| > 1 then Err(AmbiguousStatus)
    else
      var state :| state in states;
      Ok(state)
  }

  lemma VerdictIsTheState(lib: Library, exitCode: nat, payload: Option<Json.Value>, rules: seq<Rule>, state: ObservedState)
    requires MatchedStates(lib, exitCode, payload, rules) == {state}
    requires Sum(RuleCost(lib, exitCode, payload), rules) <= MAX_LIFECYCLE_STATUS_EVALUATION_WORK
    ensures Verdict(lib, exitCode, payload, rules) == Ok(state)
  {
  }

  /** The verdict, budget included, is the same for every order of the rules. */
  lemma VerdictIgnoresRuleOrder(lib: Library, exitCode: nat, payload: Option<Json.Value>, a: seq<Rule>, b: seq<Rule>)
    requires multiset(a) == multiset(b)
    ensures Verdict(lib, exitCode, payload, a) == Verdict(lib, exitCode, payload, b)
  {
    SumIgnoresOrder(RuleCost(lib, exitCode, payload), a, b);
    forall rule
      ensures rule in a <==> rule in b
    {
      assert rule in a <==> rule in multiset(a);
      assert rule in b <==> rule in multiset(b);
    }
    assert MatchedStates(lib, exitCode, payload, a) == MatchedStates(lib, exitCode, payload, b);
  }

  /** Two rules that both match disagree only if the verdict is no state at all. */
  lemma VerdictAgreesWithEveryMatch(lib: Library, exitCode: nat, payload: Option<Json.Value>, rules: seq<Rule>, rule: Rule)
    requires rule in rules && RuleMatches(lib, exitCode, payload, rule)
    requires Verdict(lib, exitCode, payload, rules).Ok?
    ensures Verdict(lib, exitCode, payload, rules) == Ok(rule.state)
  {
    var states := MatchedStates(lib, exitCode, payload, rules);
    assert rule.state in states;
    var state := Verdict(lib, exitCode, payload, rules).value;
    assert {rule.state, state} <= states;
    assert |states| == 1 + |states - {state}|;
  }

  class EvaluationBudget {
    var remaining: nat

    constructor ()
      ensures remaining == MAX_LIFECYCLE_STATUS_EVALUATION_WORK
    {
      remaining := MAX_LIFECYCLE_STATUS_EVALUATION_WORK;
    }

    method Consume(amount: nat) returns (ok: bool)
      modifies this
      ensures ok <==> amount <= old(remaining)
      ensures remaining == if ok then old(remaining) - amount else old(remaining)
    {
      ok := amount <= remaining;
      if ok {
        remaining := remaining - amount;
      }
    }
  }

  /** Evaluates one predicate; fails when the budget cannot pay for it. */
  method EvaluatePredicate(lib: Library, payload: Option<Json.Value>, p: Predicate, budget: EvaluationBudget)
    returns (ok: bool, holds: bool)
    modifies budget
    ensures ok <==> PredicateCost(lib, payload, p) <= old(budget.remaining)
    ensures ok ==>
      && holds == PredicateHolds(lib, payload, p)
      && budget.remaining == old(budget.remaining) - PredicateCost(lib, payload, p)
  {
    ok := budget.Consume(1);
    if !ok {
      return false, false;
    }
    if payload.None? {
      return true, false;
    }
    var found := lib.pointer(payload.value, p.pointer);
    match p {
      case Equals(_, constant) =>
        holds := found.Some? && ConstantMatches(constant, found.value);
      case Exists(_) =>
        holds := found.Some?;
      case Absent(_) =>
        holds := found.None?;
      case ArrayContainsAllStrings(_, values) =>
        holds := false;
        if found.Some? && found.value.Array? {
          ok := budget.Consume(|found.value.items| + |values|);
          holds := forall text :: text in values ==> Json.Str(text) in found.value.items;
        }
    }
  }

  method EvaluateAll(lib: Library, payload: Option<Json.Value>, ps: seq<Predicate>, budget: EvaluationBudget)
    returns (ok: bool, holds: bool)
    modifies budget
    ensures ok <==> AllCost(lib, payload, ps) <= old(budget.remaining)
    ensures ok ==>
      && holds == AllHold(lib, payload, ps)
      && budget.remaining == old(budget.remaining) - AllCost(lib, payload, ps)
  {
    hide PredicateCost, PredicateHolds;
    var i := 0;
    assert ps[0..] == ps;
    while i < |ps|
      invariant i <= |ps| && AllHold(lib, payload, ps[..i])
      invariant budget.remaining <= old(budget.remaining)
      invariant old(budget.remaining) - budget.remaining + AllCost(lib, payload, ps[i..]) == AllCost(lib, payload, ps)
    {
      ghost var rest := ps[i..];
      assert rest[0] == ps[i] && rest[1..] == ps[i + 1..];
      ok, holds := EvaluatePredicate(lib, payload, ps[i], budget);
      if !ok || !holds {
        return;
      }
      assert ps[..i + 1] == ps[..i] + [ps[i]];
      i := i + 1;
    }
    assert ps[..i] == ps;
    return true, true;
  }

  lemma StatesStep(lib: Library, exitCode: nat, payload: Option<Json.Value>, rules: seq<Rule>, i: nat)
    requires i < |rules|
    ensures MatchedStates(lib, exitCode, payload, rules[..i + 1])
         == MatchedStates(lib, exitCode, payload, rules[..i])
            + if RuleMatches(lib, exitCode, payload, rules[i]) then {rules[i].state} else {}
  {
    assert rules[..i + 1] == rules[..i] + [rules[i]];
  }

  lemma CostStep(lib: Library, exitCode: nat, payload: Option<Json.Value>, rules: seq<Rule>, i: nat)
    requires i < |rules|
    ensures var cost := RuleCost(lib, exitCode, payload);
      && Sum(cost, rules[..i + 1]) == Sum(cost, rules[..i]) + cost(rules[i])
      && Sum(cost, rules[..i + 1]) <= Sum(cost, rules)
  {
    var cost := RuleCost(lib, exitCode, payload);
    assert rules[..i + 1] == rules[..i] + [rules[i]];
    SumAppend(cost, rules[..i], [rules[i]]);
    assert [rules[i]][1..] == [];
    assert rules == rules[..i + 1] + rules[i + 1..];
    SumAppend(cost, rules[..i + 1], rules[i + 1..]);
  }

  /** The rule loop under one shared budget. */
  method EvaluateRules(lib: Library, exitCode: nat, payload: Option<Json.Value>, rules: seq<Rule>)
    returns (r: Result<ObservedState, EvaluationError>)
    ensures r == Verdict(lib, exitCode, payload, rules)
  {
    hide RuleMatches, AllCost, MatchedStates;
    var matched: set<ObservedState> := {};
    var budget := new EvaluationBudget();
    ghost var cost := RuleCost(lib, exitCode, payload);
    assert MatchedStates(lib, exitCode, payload, []) == {} by {
      NoRulesNoStates(lib, exitCode, payload);
    }
    for i := 0 to |rules|
      invariant matched == MatchedStates(lib, exitCode, payload, rules[..i])
      invariant budget.remaining + Sum(cost, rules[..i]) == MAX_LIFECYCLE_STATUS_EVALUATION_WORK
    {
      var rule := rules[i];
      StatesStep(lib, exitCode, payload, rules, i);
      CostStep(lib, exitCode, payload, rules, i);
      MatchNeedsExitCode(lib, exitCode, payload, rule);
      if exitCode in rule.exitCodes {
        var ok := budget.Consume(1);
        if !ok {
          return Err(EvaluationLimitExceeded);
        }
        var holds;
        ok, holds := EvaluateAll(lib, payload, rule.all, budget);
        if !ok {
          return Err(EvaluationLimitExceeded);
        }
        if holds {
          matched := matched + {rule.state};
        }
      }
    }
    assert rules[..|rules|] == rules;
    if |matched| == 0 {
      return Err(UnmappedStatus);
    }
    if |matched| > 1 {
      return Err(AmbiguousStatus);
    }
    var state :| state in matched;
    assert |matched - {state}| == 0;
    assert matched == {state};
    VerdictIsTheState(lib, exitCode, payload, rules, state);
    r := Ok(state);
  }

  lemma NoRulesNoStates(lib: Library, exitCode: nat, payload: Option<Json.Value>)
    ensures MatchedStates(lib, exitCode, payload, []) == {}
  {
  }

  lemma MatchNeedsExitCode(lib: Library, exitCode: nat, payload: Option<Json.Value>, rule: Rule)
    ensures RuleMatches(lib, exitCode, payload, rule) <==>
      exitCode in rule.exitCodes && AllHold(lib, payload, rule.all)
  {
  }

  // ----- Bounded parsing

  ghost function ParsedWithin(lib: Library, bytes: Bytes): Result<Json.Value, EvaluationError> {
    if JsonNesting.FeedAll(JsonNesting.Scanner(0, false, false), bytes, JsonNesting.MAX_LIFECYCLE_STATUS_JSON_DEPTH).None?
    then Err(OutputTooDeep)
    else if lib.parse(bytes).None? then Err(MalformedOutput)
    else if Json.Nodes(lib.parse(bytes).value) > MAX_LIFECYCLE_STATUS_JSON_NODES then Err(OutputTooComplex)
    else Ok(lib.parse(bytes).value)
  }

  method ParseBoundedJson(lib: Library, bytes: Bytes) returns (r: Result<Json.Value, EvaluationError>)
    ensures r == ParsedWithin(lib, bytes)
  {
    var tooDeep := JsonNesting.ValidateJsonNesting(bytes);
    if tooDeep {
      return Err(OutputTooDeep);
    }
    var value := lib.parse(bytes);
    if value.None? {
      return Err(MalformedOutput);
    }
    var ok := Json.ValidateJsonNodes(value.value, MAX_LIFECYCLE_STATUS_JSON_NODES);
    if !ok {
      return Err(OutputTooComplex);
    }
    r := Ok(value.value);
  }

  // ----- Identity

  function Lower(c: char): char {
    if 'A' <= c <= 'Z' then (c as int + 32) as char else c
  }

  predicate EqualIgnoringAsciiCase(a: string, b: string) {
    |a| == |b| && forall i :: 0 <= i < |a| ==> Lower(a[i]) == Lower(b[i])
  }

  predicate SameIdentity(selector: Selector, expected: string, actual: string) {
    if selector.IgnoringAsciiCase? then EqualIgnoringAsciiCase(expected, actual) else expected == actual
  }

  function VerifyIdentity(lib: Library, plan: Plan, state: ObservedState, payload: Option<Json.Value>)
    : Result<StatusResult, EvaluationError>
  {
    if state != Ready then Ok(StatusResult(Observed(state), NotEvaluated, plan.expected, None))
    else
      match plan.identity
      case NoIdentity => Ok(StatusResult(Observed(Ready), NotDeclared, None, None))
      case Unverified => Ok(StatusResult(Observed(Ready), ProviderUnverified, None, None))
      case ProfileExpected(selector) =>
        if plan.expected.None? || payload.None? then Err(MissingIdentity)
        else
          var found := lib.pointer(payload.value, selector.pointer);
          if found.None? || !found.value.Str? then Err(MissingIdentity)
          else if !lib.identityOk(found.value.text) then Err(InvalidIdentity)
          else
            var actual := found.value.text;
            var same := SameIdentity(selector, plan.expected.value, actual);
            Ok(StatusResult(if same then Observed(Ready) else IdentityMismatch,
                            if same then Matched else Mismatched,
                            plan.expected, Some(actual)))
  }

  // ----- The whole evaluation

  /** The payload that the rules see. */
  ghost function Payload(lib: Library, contract: Contract, stdout: Bytes): Result<Option<Json.Value>, EvaluationError> {
    if contract.format.ExitCode? then Ok(None)
    else
      match ParsedWithin(lib, stdout)
      case Ok(value) => Ok(Some(value))
      case Err(error) => Err(error)
  }

  /** What an observed command amounts to, failures included. */
  ghost function Evaluation(lib: Library, plan: Plan, observed: Operation, termination: Termination, stdout: Bytes)
    : Result<StatusResult, EvaluationError>
  {
    if plan.operation != Status || observed != Status then Err(WrongOperation)
    else if plan.contract.None? then Err(MissingStatusContract)
    else
      match termination
      case Cancelled => Err(WasCancelled)
      case TimedOut => Err(WasTimedOut)
      case Signaled => Err(ProcessFailed)
      case SpawnFailed => Err(ProcessFailed)
      case Exited(code) =>
        var payload := Payload(lib, plan.contract.value, stdout);
        if payload.Err? then Err(payload.error)
        else
          var verdict := Verdict(lib, code, payload.value, plan.contract.value.rules);
          if verdict.Err? then Err(verdict.error)
          else VerifyIdentity(lib, plan, verdict.value, payload.value)
  }

  /** Two plans that differ only in the order of their rules get the same result, every failure included. */
  lemma ResultIgnoresRuleOrder(lib: Library, a: Plan, b: Plan, observed: Operation, termination: Termination, stdout: Bytes)
    requires a.contract.Some? && b.contract.Some?
    requires multiset(a.contract.value.rules) == multiset(b.contract.value.rules)
    requires b == a.(contract := Some(a.contract.value.(rules := b.contract.value.rules)))
    ensures Evaluation(lib, a, observed, termination, stdout) == Evaluation(lib, b, observed, termination, stdout)
  {
    hide Verdict;
    var payload := Payload(lib, a.contract.value, stdout);
    if termination.Exited? && payload.Ok? {
      VerdictIgnoresRuleOrder(lib, termination.code, payload.value, a.contract.value.rules, b.contract.value.rules);
    }
  }

  method EvaluateLifecycleStatus(lib: Library, plan: Plan, observed: Operation, termination: Termination, stdout: Bytes)
    returns (r: Result<StatusResult, EvaluationError>)
    ensures r == Evaluation(lib, plan, observed, termination, stdout)
    ensures r.Ok? && r.value.IsExecutionReady() ==>
      && plan.contract.Some? && termination.Exited? && Payload(lib, plan.contract.value, stdout).Ok?
      && var payload := Payload(lib, plan.contract.value, stdout).value;
      && (forall rule :: rule in plan.contract.value.rules && RuleMatches(lib, termination.code, payload, rule) ==>
            rule.state == Ready)
      && (plan.identity.ProfileExpected? ==>
            && r.value.verification == Matched
            && plan.expected.Some? && r.value.actual.Some?
            && SameIdentity(plan.identity.selector, plan.expected.value, r.value.actual.value))
  {
    if plan.operation != Status || observed != Status {
      return Err(WrongOperation);
    }
    if plan.contract.None? {
      return Err(MissingStatusContract);
    }
    var contract := plan.contract.value;
    match termination {
      case Exited(_) =>
      case Cancelled => return Err(WasCancelled);
      case TimedOut => return Err(WasTimedOut);
      case Signaled => return Err(ProcessFailed);
      case SpawnFailed => return Err(ProcessFailed);
    }
    var payload: Option<Json.Value> := None;
    if contract.format.JsonOutput? {
      var parsed := ParseBoundedJson(lib, stdout);
      if parsed.Err? {
        return Err(parsed.error);
      }
      payload := Some(parsed.value);
    }
    var projected := EvaluateRules(lib, termination.code, payload, contract.rules);
    if projected.Err? {
      return Err(projected.error);
    }
    r := VerifyIdentity(lib, plan, projected.value, payload);
    ReadyMeansReady(lib, termination.code, payload, contract.rules, projected.value);
  }

  lemma ReadyMeansReady(lib: Library, exitCode: nat, payload: Option<Json.Value>, rules: seq<Rule>, state: ObservedState)
    requires Verdict(lib, exitCode, payload, rules) == Ok(state)
    ensures forall rule :: rule in rules && RuleMatches(lib, exitCode, payload, rule) ==> rule.state == state
  {
    forall rule | rule in rules && RuleMatches(lib, exitCode, payload, rule)
      ensures rule.state == state
    {
      VerdictAgreesWithEveryMatch(lib, exitCode, payload, rules, rule);
    }
  }

  /**
   Readiness exactly: the rules agree on Ready and, only where the contract declares a profile
   identity, the observed one is the expected one. A profile's expectation that the contract does not
   declare is not looked at.
   */
  lemma ReadyExactlyWhen(lib: Library, plan: Plan, state: ObservedState, payload: Option<Json.Value>)
    ensures var r := VerifyIdentity(lib, plan, state, payload);
      r.Ok? && r.value.IsExecutionReady() <==>
        && state == Ready
        && (plan.identity.ProfileExpected? ==>
              && plan.expected.Some? && payload.Some?
              && var found := lib.pointer(payload.value, plan.identity.selector.pointer);
                 && found.Some? && found.value.Str? && lib.identityOk(found.value.text)
                 && SameIdentity(plan.identity.selector, plan.expected.value, found.value.text))
  {
  }

  /** A plan that expects an identity is ready without any, because its contract declares none. */
  lemma ReadyWithoutIdentity(lib: Library)
    ensures var plan := Plan(Status, Some(Contract(ExitCode, [Rule(Ready, {0}, [])])), NoIdentity, Some("alice"));
      Evaluation(lib, plan, Status, Exited(0), []) == Ok(StatusResult(Observed(Ready), NotDeclared, None, None))
  {
    var rule := Rule(Ready, {0}, []);
    assert RuleMatches(lib, 0, None, rule);
    assert MatchedStates(lib, 0, None, [rule]) == {Ready};
    assert [rule][1..] == [];
    VerdictIsTheState(lib, 0, None, [rule], Ready);
  }
}
