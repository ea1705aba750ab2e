/**
 What a status result says about the observed command: which rules matched, in terms of the payload itself,
 what the comparison of identities accepts, and what every outcome means.
 */
module StatusMeaning {
  import opened Bytes
  import opened Ordering
  import opened StatusEvaluation
  import Json
  import JsonNesting

  // ----- Predicates over the payload

  /** The payload meets a predicate: the pointer resolves, does not, resolves to this scalar, or to all these texts. */
  ghost predicate Meets(lib: Library, payload: Json.Value, p: Predicate) {
    match p
    case Exists(pointer) => exists v :: lib.pointer(payload, pointer) == Some(v)
    case Absent(pointer) => forall v :: lib.pointer(payload, pointer) != Some(v)
    case Equals(pointer, StringConstant(text)) => lib.pointer(payload, pointer) == Some(Json.Str(text))
    case Equals(pointer, BooleanConstant(bit)) => lib.pointer(payload, pointer) == Some(Json.Bool(bit))
    case Equals(pointer, IntegerConstant(n)) => lib.pointer(payload, pointer) == Some(Json.Num(Json.Integer(n)))
    case Equals(pointer, NullConstant) => lib.pointer(payload, pointer) == Some(Json.Null)
    case ArrayContainsAllStrings(pointer, values) =>
      exists items :: lib.pointer(payload, pointer) == Some(Json.Array(items))
        && forall text :: text in values ==> exists i :: 0 <= i < |items| && items[i] == Json.Str(text)
  }

  /** The exit code is listed, and there is a payload that meets each predicate of the rule. */
  ghost predicate Met(lib: Library, exitCode: nat, payload: Option<Json.Value>, rule: Rule) {
    && exitCode in rule.exitCodes
    && (rule.all != [] ==> payload.Some?)
    && forall i :: 0 <= i < |rule.all| ==> Meets(lib, payload.value, rule.all[i])
  }

  /** A rule matches exactly if it is met. */
  lemma RuleMatchesExactlyWhen(lib: Library, exitCode: nat, payload: Option<Json.Value>, rule: Rule)
    ensures RuleMatches(lib, exitCode, payload, rule) <==> Met(lib, exitCode, payload, rule)
  {
    hide Meets, PredicateHolds;
    forall i | 0 <= i < |rule.all|
      ensures PredicateHolds(lib, payload, rule.all[i]) <==> payload.Some? && Meets(lib, payload.value, rule.all[i])
      ensures rule.all[i] in rule.all
    {
      PredicateHoldsExactlyWhen(lib, payload, rule.all[i]);
    }
    assert rule.all != [] ==> rule.all[0] in rule.all;
  }

  lemma PredicateHoldsExactlyWhen(lib: Library, payload: Option<Json.Value>, p: Predicate)
    ensures PredicateHolds(lib, payload, p) <==> payload.Some? && Meets(lib, payload.value, p)
  {
    if payload.Some? {
      var found := lib.pointer(payload.value, p.pointer);
      match p {
        case Exists(_) =>
          assert found.Some? ==> found == Some(found.value);
        case Absent(_) =>
          assert found.Some? ==> found == Some(found.value);
        case Equals(_, constant) =>
          assert found.Some? && constant.IntegerConstant? && ConstantMatches(constant, found.value) ==>
            found.value == Json.Num(Json.Integer(constant.n));
        case ArrayContainsAllStrings(_, values) =>
          assert found.Some? && found.value.Array? ==> found == Some(Json.Array(found.value.items));
      }
    }
  }

  /** Existence and absence of the same pointer exclude each other, and a scalar that equals exists. */
  lemma ExistsOrAbsent(lib: Library, payload: Json.Value, pointer: string)
    ensures PredicateHolds(lib, Some(payload), Exists(pointer)) <==> !PredicateHolds(lib, Some(payload), Absent(pointer))
    ensures forall constant ::
      PredicateHolds(lib, Some(payload), Equals(pointer, constant)) ==> PredicateHolds(lib, Some(payload), Exists(pointer))
    ensures forall one, other ::
      (PredicateHolds(lib, Some(payload), Equals(pointer, one))
       && PredicateHolds(lib, Some(payload), Equals(pointer, other))) ==> one == other
  {
  }

  // ----- The verdict

  /**
   A verdict that is a state: some rule of that state lists the exit code and is met by the payload in every
   predicate, and every rule that is met is of that state.
   */
  lemma VerdictMeans(lib: Library, exitCode: nat, payload: Option<Json.Value>, rules: seq<Rule>)
    ensures var verdict := Verdict(lib, exitCode, payload, rules);
      && (verdict.Ok? ==>
            && (exists k :: 0 <= k < |rules| && rules[k].state == verdict.value && Met(lib, exitCode, payload, rules[k]))
            && (forall k :: 0 <= k < |rules| && Met(lib, exitCode, payload, rules[k]) ==> rules[k].state == verdict.value))
      && (verdict == Err(UnmappedStatus) ==> forall k :: 0 <= k < |rules| ==> !Met(lib, exitCode, payload, rules[k]))
      && (verdict == Err(AmbiguousStatus) ==>
            exists j, k :: 0 <= j < |rules| && 0 <= k < |rules| && rules[j].state != rules[k].state
              && Met(lib, exitCode, payload, rules[j]) && Met(lib, exitCode, payload, rules[k]))
      && (verdict.Err? ==> verdict.error in {UnmappedStatus, AmbiguousStatus, EvaluationLimitExceeded})
  {
    hide RuleMatches, Met, RuleCost;
    forall k | 0 <= k < |rules|
      ensures RuleMatches(lib, exitCode, payload, rules[k]) <==> Met(lib, exitCode, payload, rules[k])
    {
      RuleMatchesExactlyWhen(lib, exitCode, payload, rules[k]);
    }
    var states := MatchedStates(lib, exitCode, payload, rules);
    var verdict := Verdict(lib, exitCode, payload, rules);
    assert forall k :: 0 <= k < |rules| && RuleMatches(lib, exitCode, payload, rules[k]) ==> rules[k].state in states;
    if verdict.Ok? {
      assert verdict.value in states;
      forall k | 0 <= k < |rules| && Met(lib, exitCode, payload, rules[k])
        ensures rules[k].state == verdict.value
      {
        VerdictAgreesWithEveryMatch(lib, exitCode, payload, rules, rules[k]);
      }
    } else if verdict.error == AmbiguousStatus {
      var one :| one in states;
      assert |states - {one}| >= 1;
      var other :| other in states - {one};
      assert one in states && other in states && one != other;
    }
  }

  // ----- Work

  /** What one predicate costs: one unit, and an array test also the array and the wanted texts. */
  lemma CostMeans(lib: Library, payload: Option<Json.Value>, p: Predicate)
    ensures !p.ArrayContainsAllStrings? || payload.None? ==> PredicateCost(lib, payload, p) == 1
    ensures p.ArrayContainsAllStrings? && payload.Some? ==>
      forall items :: lib.pointer(payload.value, p.pointer) == Some(Json.Array(items)) ==>
        PredicateCost(lib, payload, p) == 1 + |items| + |p.values|
  {
  }

  /** Rules without array tests cost at most their own size, so small contracts never exceed the budget. */
  lemma {:induction false} PlainPredicatesCost(lib: Library, payload: Option<Json.Value>, ps: seq<Predicate>)
    requires forall i :: 0 <= i < |ps| ==> !ps[i].ArrayContainsAllStrings?
    ensures AllCost(lib, payload, ps) <= |ps|
    ensures AllHold(lib, payload, ps) ==> AllCost(lib, payload, ps) == |ps|
  {
    if ps != [] {
      PlainPredicatesCost(lib, payload, ps[1..]);
      CostMeans(lib, payload, ps[0]);
      assert ps[0] in ps;
      assert forall p :: p in ps[1..] ==> p in ps;
    }
  }

  /** A contract is stopped by the budget exactly if what its rules cost together exceeds it. */
  lemma LimitExceededExactlyWhen(lib: Library, exitCode: nat, payload: Option<Json.Value>, rules: seq<Rule>)
    ensures Verdict(lib, exitCode, payload, rules) == Err(EvaluationLimitExceeded) <==>
      Sum((rule: Rule) => if exitCode in rule.exitCodes then 1 + AllCost(lib, payload, rule.all) else 0, rules) > 262144
  {
    SameSum(RuleCost(lib, exitCode, payload),
            (rule: Rule) => if exitCode in rule.exitCodes then 1 + AllCost(lib, payload, rule.all) else 0, rules);
  }

  lemma {:induction false} SameSum<T(!new)>(f: T -> nat, g: T -> nat, s: seq<T>)
    requires forall x: T :: f(x) == g(x)
    ensures Sum(f, s) == Sum(g, s)
  {
    if s != [] {
      SameSum(f, g, s[1..]);
    }
  }

  // ----- Identities

  /** Two characters are the same up to the case of an ASCII letter. */
  predicate SameLetter(a: char, b: char) {
    || a == b
    || ('A' <= a <= 'Z' && b as int == a as int + 32)
    || ('A' <= b <= 'Z' && a as int == b as int + 32)
  }

  /** An exact selector accepts equal texts only; the other one exactly texts equal up to ASCII case. */
  lemma SameIdentityMeans(selector: Selector, expected: string, actual: string)
    ensures selector.Exact? ==> (SameIdentity(selector, expected, actual) <==> expected == actual)
    ensures selector.IgnoringAsciiCase? ==>
      (SameIdentity(selector, expected, actual) <==>
         |expected| == |actual| && forall i :: 0 <= i < |expected| ==> SameLetter(expected[i], actual[i]))
  {
  }

  /** What the identity check reports, outcome by outcome. */
  lemma IdentityOutcome(lib: Library, plan: Plan, state: ObservedState, payload: Option<Json.Value>)
    ensures var r := VerifyIdentity(lib, plan, state, payload);
      var at := if plan.identity.ProfileExpected? && payload.Some? then lib.pointer(payload.value, plan.identity.selector.pointer)
                else None;
      && (state != Ready ==> r == Ok(StatusResult(Observed(state), NotEvaluated, plan.expected, None)))
      && (state == Ready && plan.identity.NoIdentity? ==> r == Ok(StatusResult(Observed(Ready), NotDeclared, None, None)))
      && (state == Ready && plan.identity.Unverified? ==> r == Ok(StatusResult(Observed(Ready), ProviderUnverified, None, None)))
      && (r == Err(MissingIdentity) <==>
            state == Ready && plan.identity.ProfileExpected?
            && (plan.expected.None? || forall text :: at != Some(Json.Str(text))))
      && (r == Err(InvalidIdentity) <==>
            state == Ready && plan.identity.ProfileExpected? && plan.expected.Some?
            && exists text :: at == Some(Json.Str(text)) && !lib.identityOk(text))
      && (r.Err? ==> r.error in {MissingIdentity, InvalidIdentity})
      && (r.Ok? && state == Ready && plan.identity.ProfileExpected? ==>
            && plan.expected.Some? && r.value.expected == plan.expected && r.value.actual.Some?
            && at == Some(Json.Str(r.value.actual.value)) && lib.identityOk(r.value.actual.value)
            && (if SameIdentity(plan.identity.selector, plan.expected.value, r.value.actual.value)
                then r.value.state == Observed(Ready) && r.value.verification == Matched
                else r.value.state == IdentityMismatch && r.value.verification == Mismatched))
  {
    hide SameIdentity;
    if plan.identity.ProfileExpected? && payload.Some? {
      var at := lib.pointer(payload.value, plan.identity.selector.pointer);
      assert at.Some? && at.value.Str? ==> at == Some(Json.Str(at.value.text));
    }
  }

  // ----- The whole evaluation

  /**
   A state reported by the evaluation is the state of a rule that the command met: the exit code is listed
   and the payload meets each predicate. No rule of another state is met.
   */
  lemma ReportedStateIsMet(lib: Library, plan: Plan, observed: Operation, termination: Termination, stdout: Bytes)
    requires Evaluation(lib, plan, observed, termination, stdout).Ok?
    ensures plan.contract.Some? && termination.Exited? && Payload(lib, plan.contract.value, stdout).Ok?
    ensures plan.operation == Status && observed == Status
    ensures var rules := plan.contract.value.rules;
      var payload := Payload(lib, plan.contract.value, stdout).value;
      var reported := Evaluation(lib, plan, observed, termination, stdout).value.state;
      var state := if reported.IdentityMismatch? then Ready else reported.state;
      && (exists k :: 0 <= k < |rules| && rules[k].state == state && Met(lib, termination.code, payload, rules[k]))
      && (forall k :: 0 <= k < |rules| && Met(lib, termination.code, payload, rules[k]) ==> rules[k].state == state)
  {
    hide Verdict, VerifyIdentity, Met;
    var rules := plan.contract.value.rules;
    var payload := Payload(lib, plan.contract.value, stdout).value;
    VerdictMeans(lib, termination.code, payload, rules);
    IdentityOutcome(lib, plan, Verdict(lib, termination.code, payload, rules).value, payload);
  }

  /** Output that nests too deep is refused before it is parsed, whatever parsing it would do. */
  lemma DeepOutputIsNotParsed(lib: Library, other: Library, plan: Plan, observed: Operation, termination: Termination,
                              text: JsonNesting.Text)
    requires JsonNesting.TextOk(text) && JsonNesting.Nesting(text) > 32
    requires other == lib.(parse := other.parse)
    ensures Evaluation(lib, plan, observed, termination, JsonNesting.Render(text))
         == Evaluation(other, plan, observed, termination, JsonNesting.Render(text))
  {
    JsonNesting.ScanIsNesting(text, 32);
    hide JsonNesting.FeedAll, JsonNesting.Render, Verdict, VerifyIdentity;
    if plan.contract.Some? && plan.contract.value.format.ExitCode? && termination.Exited? {
      WithoutPayload(lib, other, termination.code, plan);
    }
  }

  lemma WithoutPayload(lib: Library, other: Library, exitCode: nat, plan: Plan)
    requires plan.contract.Some? && other == lib.(parse := other.parse)
    ensures Verdict(lib, exitCode, None, plan.contract.value.rules) == Verdict(other, exitCode, None, plan.contract.value.rules)
    ensures forall state :: VerifyIdentity(lib, plan, state, None) == VerifyIdentity(other, plan, state, None)
  {
    var rules := plan.contract.value.rules;
    forall rule: Rule
      ensures RuleMatches(lib, exitCode, None, rule) == RuleMatches(other, exitCode, None, rule)
      ensures RuleCost(lib, exitCode, None)(rule) == RuleCost(other, exitCode, None)(rule)
    {
      SameCost(lib, other, rule.all);
    }
    SameSum(RuleCost(lib, exitCode, None), RuleCost(other, exitCode, None), rules);
    hide RuleMatches, RuleCost;
    assert MatchedStates(lib, exitCode, None, rules) == MatchedStates(other, exitCode, None, rules);
  }

  lemma {:induction false} SameCost(lib: Library, other: Library, ps: seq<Predicate>)
    ensures AllCost(lib, None, ps) == AllCost(other, None, ps)
  {
    if ps != [] {
      SameCost(lib, other, ps[1..]);
    }
  }

  /** Each failure before the rules are looked at has its own cause. */
  lemma FailureNamesCause(lib: Library, plan: Plan, observed: Operation, termination: Termination, stdout: Bytes)
    requires Evaluation(lib, plan, observed, termination, stdout).Err?
    ensures match Evaluation(lib, plan, observed, termination, stdout).error
      case WrongOperation => plan.operation != Status || observed != Status
      case MissingStatusContract => plan.contract.None?
      case WasCancelled => termination == Cancelled
      case WasTimedOut => termination == TimedOut
      case ProcessFailed => termination == Signaled || termination == SpawnFailed
      case OutputTooDeep =>
        plan.contract.Some? && plan.contract.value.format.JsonOutput?
        && forall text :: JsonNesting.TextOk(text) && stdout == JsonNesting.Render(text) ==> JsonNesting.Nesting(text) > 32
      case MalformedOutput => plan.contract.Some? && plan.contract.value.format.JsonOutput? && lib.parse(stdout).None?
      case OutputTooComplex =>
        plan.contract.Some? && plan.contract.value.format.JsonOutput?
        && lib.parse(stdout).Some? && Json.Nodes(lib.parse(stdout).value) > 16384
      case _ => termination.Exited? && plan.contract.Some?
  {
    hide Verdict, VerifyIdentity, Json.Nodes, JsonNesting.FeedAll, JsonNesting.Render, JsonNesting.Nesting, JsonNesting.TextOk;
    forall text | JsonNesting.TextOk(text) && stdout == JsonNesting.Render(text)
      ensures JsonNesting.FeedAll(JsonNesting.Scanner(0, false, false), stdout, 32).None? <==> JsonNesting.Nesting(text) > 32
    {
      JsonNesting.ScanIsNesting(text, 32);
    }
    if termination.Exited? && plan.contract.Some? && Payload(lib, plan.contract.value, stdout).Ok? {
      var payload := Payload(lib, plan.contract.value, stdout).value;
      VerdictMeans(lib, termination.code, payload, plan.contract.value.rules);
      if Verdict(lib, termination.code, payload, plan.contract.value.rules).Ok? {
        IdentityOutcome(lib, plan, Verdict(lib, termination.code, payload, plan.contract.value.rules).value, payload);
      }
    }
  }
}
