/** Declarative restrictions over the final argv of an action. */
module ArgumentRules {
  import opened Bytes
  import opened Text
  import TypedActions

  const MAX_TYPED_ARGUMENT_RULES: nat := 64
  const MAX_TYPED_ARGUMENT_RULE_PREFIX_TOKENS: nat := 16
  const MAX_TYPED_ARGUMENT_RULE_ALLOWED_TOKENS: nat := 64
  const MAX_TYPED_ARGUMENT_RULE_TOTAL_TOKENS: nat := 8192
  const MAX_TYPED_ARGUMENT_RULE_TOTAL_BYTES: nat := 1024 * 1024

  /** `allowed` lists a set of tokens, each once. */
  datatype Constraint = Constraint(prefix: seq<string>, allowed: seq<string>)

  datatype Rules = Rules(denied: seq<seq<string>>, constrained: seq<Constraint>)

  datatype Account = Account(tokens: nat, bytes: nat)

  function Plus(account: Account, tokens: seq<string>): Account {
    Account(account.tokens + |tokens|, account.bytes + TotalByteLen(tokens))
  }

  predicate WithinTotals(account: Account) {
    && account.tokens <= MAX_TYPED_ARGUMENT_RULE_TOTAL_TOKENS
    && account.bytes <= MAX_TYPED_ARGUMENT_RULE_TOTAL_BYTES
  }

  predicate PrefixAccepted(prefix: seq<string>) {
    && 0 < |prefix| <= MAX_TYPED_ARGUMENT_RULE_PREFIX_TOKENS
    && TypedActions.FixedArgumentsAccepted(prefix)
  }

  predicate AllowedAccepted(allowed: seq<string>) {
    && 0 < |allowed| <= MAX_TYPED_ARGUMENT_RULE_ALLOWED_TOKENS
    && forall token :: token in allowed ==> TypedActions.FixedArgumentsAccepted([token])
  }

  ghost predicate PrefixesDistinct(prefixes: seq<seq<string>>) {
    forall i, j :: 0 <= i < j < |prefixes| ==> prefixes[i] != prefixes[j]
  }

  /** No constrained prefix continues another one. */
  ghost predicate NoOverlap(constrained: seq<Constraint>) {
    forall i, j :: 0 <= i < j < |constrained| ==>
      !(constrained[i].prefix <= constrained[j].prefix) && !(constrained[j].prefix <= constrained[i].prefix)
  }

  function DeniedTotal(denied: seq<seq<string>>, n: nat): Account
    requires n <= |denied|
  {
    if n == 0 then Account(0, 0) else Plus(DeniedTotal(denied, n - 1), denied[n - 1])
  }

  function ConstrainedTotal(from: Account, constrained: seq<Constraint>, n: nat): Account
    requires n <= |constrained|
  {
    if n == 0 then from
    else Plus(Plus(ConstrainedTotal(from, constrained, n - 1), constrained[n - 1].prefix), constrained[n - 1].allowed)
  }

  ghost predicate RulesAccepted(rules: Rules) {
    && |rules.denied| <= MAX_TYPED_ARGUMENT_RULES && |rules.constrained| <= MAX_TYPED_ARGUMENT_RULES
    && (forall i :: 0 <= i < |rules.denied| ==> PrefixAccepted(rules.denied[i]))
    && PrefixesDistinct(rules.denied)
    && (forall i :: 0 <= i < |rules.constrained| ==>
          && PrefixAccepted(rules.constrained[i].prefix)
          && AllowedAccepted(rules.constrained[i].allowed)
          && rules.constrained[i].prefix !in rules.denied)
    && WithinTotals(ConstrainedTotal(DeniedTotal(rules.denied, |rules.denied|), rules.constrained, |rules.constrained|))
    && NoOverlap(rules.constrained)
  }

  predicate Applies(constraint: Constraint, argv: seq<string>) {
    constraint.prefix <= argv
  }

  predicate NextTokenAllowed(constraint: Constraint, argv: seq<string>) {
    && |constraint.prefix| < |argv|
    && argv[|constraint.prefix|] in constraint.allowed
  }

  /** Under accepted rules at most one constrained prefix applies to any argv. */
  lemma OneConstraintApplies(rules: Rules, argv: seq<string>, i: nat, j: nat)
    requires RulesAccepted(rules)
    requires i < |rules.constrained| && j < |rules.constrained|
    requires Applies(rules.constrained[i], argv) && Applies(rules.constrained[j], argv)
    ensures i == j
  {
    PrefixesCompare(rules.constrained[i].prefix, rules.constrained[j].prefix, argv);
  }

  lemma PrefixesCompare(a: seq<string>, b: seq<string>, argv: seq<string>)
    requires a <= argv && b <= argv
    ensures a <= b || b <= a
  {
    if |a| <= |b| {
      assert a == b[..|a|];
    } else {
      assert b == a[..|b|];
    }
  }

  /** A prefix applies exactly to its continuations, and is obeyed exactly by those with an allowed next token. */
  lemma AppliesExactlyWhen(constraint: Constraint, argv: seq<string>)
    ensures Applies(constraint, argv) <==> exists rest :: argv == constraint.prefix + rest
    ensures Applies(constraint, argv) && NextTokenAllowed(constraint, argv) <==>
      exists token, rest :: argv == constraint.prefix + [token] + rest && token in constraint.allowed
  {
    var prefix := constraint.prefix;
    if Applies(constraint, argv) {
      assert argv == prefix + argv[|prefix|..];
      if NextTokenAllowed(constraint, argv) {
        assert argv == prefix + [argv[|prefix|]] + argv[|prefix| + 1..];
      }
    }
    if token, rest :| argv == prefix + [token] + rest && token in constraint.allowed {
      assert argv[|prefix|] == token;
    }
  }

  /** All tokens that a set of rules writes down. */
  function TokensOf(rules: Rules): seq<string> {
    Flatten(rules.denied) + ConstrainedTokens(rules.constrained, |rules.constrained|)
  }

  function ConstrainedTokens(constrained: seq<Constraint>, n: nat): seq<string>
    requires n <= |constrained|
  {
    if n == 0 then [] else ConstrainedTokens(constrained, n - 1) + constrained[n - 1].prefix + constrained[n - 1].allowed
  }

  lemma {:induction false} DeniedTotalCounts(denied: seq<seq<string>>, n: nat)
    requires n <= |denied|
    ensures DeniedTotal(denied, n) == Account(|Flatten(denied[..n])|, TotalByteLen(Flatten(denied[..n])))
  {
    if n == 0 {
      assert denied[..0] == [];
    } else {
      DeniedTotalCounts(denied, n - 1);
      hide TotalByteLen;
      var before, last := denied[..n - 1], denied[n - 1];
      assert denied[..n] == before + [last];
      FlattenAppend(before, [last]);
      assert Flatten([last]) == last + Flatten([]) == last;
      assert Flatten(denied[..n]) == Flatten(before) + last;
      TotalByteLenAppend(Flatten(before), last);
    }
  }

  lemma {:induction false} ConstrainedTotalCounts(from: seq<string>, constrained: seq<Constraint>, n: nat)
    requires n <= |constrained|
    ensures var all := from + ConstrainedTokens(constrained, n);
      ConstrainedTotal(Account(|from|, TotalByteLen(from)), constrained, n) == Account(|all|, TotalByteLen(all))
  {
    hide TotalByteLen;
    if n == 0 {
      assert from + [] == from;
    } else {
      ConstrainedTotalCounts(from, constrained, n - 1);
      var before, c := ConstrainedTokens(constrained, n - 1), constrained[n - 1];
      assert ConstrainedTokens(constrained, n) == before + c.prefix + c.allowed;
      hide ConstrainedTokens;
      assert from + (before + c.prefix + c.allowed) == from + before + c.prefix + c.allowed;
      TotalByteLenAppend(from + before, c.prefix);
      TotalByteLenAppend(from + before + c.prefix, c.allowed);
    }
  }

  /** A token that a package may write: nonempty, of limited length, and printable. */
  predicate TokenSafe(token: string) {
    token != "" && ByteLen(token) <= 4096 && Printable(token)
  }

  /** Tokens that a package writes down itself are accepted exactly if each is safe and they fit together. */
  lemma FixedAcceptedExactlyWhen(tokens: seq<string>)
    ensures TypedActions.FixedArgumentsAccepted(tokens) <==>
      TotalByteLen(tokens) <= 65536 && forall k :: 0 <= k < |tokens| ==> TokenSafe(tokens[k])
  {
    hide ByteLen, TotalByteLen;
    forall k | 0 <= k < |tokens|
      ensures tokens[k] in tokens
      ensures HasControl(tokens[k]) <==> !Printable(tokens[k])
    {
    }
  }

  ghost predicate PrefixSafe(prefix: seq<string>) {
    0 < |prefix| <= 16 && TotalByteLen(prefix) <= 65536 && forall k :: 0 <= k < |prefix| ==> TokenSafe(prefix[k])
  }

  ghost predicate AllowedSafe(allowed: seq<string>) {
    0 < |allowed| <= 64 && forall k :: 0 <= k < |allowed| ==> TokenSafe(allowed[k])
  }

  /** Neither prefix continues the other. */
  ghost predicate Apart(a: seq<string>, b: seq<string>) {
    forall rest :: a + rest != b && b + rest != a
  }

  lemma PrefixAcceptedExactlyWhen(prefix: seq<string>)
    ensures PrefixAccepted(prefix) <==> PrefixSafe(prefix)
  {
    FixedAcceptedExactlyWhen(prefix);
    hide TotalByteLen, TokenSafe, TypedActions.FixedArgumentsAccepted;
  }

  lemma AllowedAcceptedExactlyWhen(allowed: seq<string>)
    ensures AllowedAccepted(allowed) <==> AllowedSafe(allowed)
  {
    forall k | 0 <= k < |allowed|
      ensures TypedActions.FixedArgumentsAccepted([allowed[k]]) <==> TokenSafe(allowed[k])
      ensures allowed[k] in allowed
    {
      SingleAcceptedExactlyWhen(allowed[k]);
    }
    hide TokenSafe, TypedActions.FixedArgumentsAccepted;
    assert forall token :: token in allowed ==> exists k :: 0 <= k < |allowed| && allowed[k] == token;
  }

  lemma SingleAcceptedExactlyWhen(token: string)
    ensures TypedActions.FixedArgumentsAccepted([token]) <==> TokenSafe(token)
  {
    assert TotalByteLen([token]) == ByteLen(token) + TotalByteLen([]);
    hide ByteLen, TotalByteLen;
    assert token in [token];
    assert HasControl(token) <==> !Printable(token);
  }

  lemma ApartExactlyWhen(a: seq<string>, b: seq<string>)
    ensures Apart(a, b) <==> !(a <= b) && !(b <= a)
  {
    IsPrefixExactlyWhen(a, b);
    IsPrefixExactlyWhen(b, a);
  }

  /** Acceptance of rules, over the tokens they write down. */
  lemma RulesAcceptedExactlyWhen(rules: Rules)
    ensures RulesAccepted(rules) <==>
      && |rules.denied| <= 64 && |rules.constrained| <= 64
      && |TokensOf(rules)| <= 8192 && TotalByteLen(TokensOf(rules)) <= 1048576
      && (forall i :: 0 <= i < |rules.denied| ==> PrefixSafe(rules.denied[i]))
      && (forall i, j :: 0 <= i < j < |rules.denied| ==> rules.denied[i] != rules.denied[j])
      && (forall i :: 0 <= i < |rules.constrained| ==>
            PrefixSafe(rules.constrained[i].prefix) && AllowedSafe(rules.constrained[i].allowed))
      && (forall i, j :: 0 <= i < |rules.constrained| && 0 <= j < |rules.denied| ==>
            rules.denied[j] != rules.constrained[i].prefix)
      && (forall i, j :: 0 <= i < j < |rules.constrained| ==> Apart(rules.constrained[i].prefix, rules.constrained[j].prefix))
  {
    TotalsCount(rules);
    hide ByteLen, TotalByteLen, PrefixAccepted, AllowedAccepted, PrefixSafe, AllowedSafe, Apart, ConstrainedTotal, DeniedTotal, TokensOf;
    forall i | 0 <= i < |rules.denied|
      ensures PrefixAccepted(rules.denied[i]) <==> PrefixSafe(rules.denied[i])
    {
      PrefixAcceptedExactlyWhen(rules.denied[i]);
    }
    forall i | 0 <= i < |rules.constrained|
      ensures PrefixAccepted(rules.constrained[i].prefix) <==> PrefixSafe(rules.constrained[i].prefix)
      ensures AllowedAccepted(rules.constrained[i].allowed) <==> AllowedSafe(rules.constrained[i].allowed)
    {
      PrefixAcceptedExactlyWhen(rules.constrained[i].prefix);
      AllowedAcceptedExactlyWhen(rules.constrained[i].allowed);
    }
    forall i, j | 0 <= i < j < |rules.constrained|
      ensures Apart(rules.constrained[i].prefix, rules.constrained[j].prefix) <==>
        !(rules.constrained[i].prefix <= rules.constrained[j].prefix) && !(rules.constrained[j].prefix <= rules.constrained[i].prefix)
    {
      ApartExactlyWhen(rules.constrained[i].prefix, rules.constrained[j].prefix);
    }
  }

  lemma TotalsCount(rules: Rules)
    ensures ConstrainedTotal(DeniedTotal(rules.denied, |rules.denied|), rules.constrained, |rules.constrained|)
         == Account(|TokensOf(rules)|, TotalByteLen(TokensOf(rules)))
  {
    DeniedTotalCounts(rules.denied, |rules.denied|);
    assert rules.denied[..|rules.denied|] == rules.denied;
    ConstrainedTotalCounts(Flatten(rules.denied), rules.constrained, |rules.constrained|);
  }

  lemma IsPrefixExactlyWhen<T>(a: seq<T>, b: seq<T>)
    ensures a <= b <==> exists rest :: a + rest == b
  {
    if a <= b {
      assert a + b[|a|..] == b;
    }
  }

  lemma {:induction false} ConstrainedTotalGrows(from: Account, constrained: seq<Constraint>, n: nat, m: nat)
    requires n <= m <= |constrained|
    ensures ConstrainedTotal(from, constrained, n).tokens <= ConstrainedTotal(from, constrained, m).tokens
    ensures ConstrainedTotal(from, constrained, n).bytes <= ConstrainedTotal(from, constrained, m).bytes
    decreases m - n
  {
    if n < m {
      ConstrainedTotalGrows(from, constrained, n, m - 1);
    }
  }

  lemma {:induction false} DeniedTotalGrows(denied: seq<seq<string>>, n: nat, m: nat)
    requires n <= m <= |denied|
    ensures DeniedTotal(denied, n).tokens <= DeniedTotal(denied, m).tokens
    ensures DeniedTotal(denied, n).bytes <= DeniedTotal(denied, m).bytes
    decreases m - n
  {
    if n < m {
      DeniedTotalGrows(denied, n, m - 1);
    }
  }

  method ValidateDenied(denied: seq<seq<string>>) returns (ok: bool, seen: set<seq<string>>, total: Account)
    ensures ok <==>
      && (forall i :: 0 <= i < |denied| ==> PrefixAccepted(denied[i]))
      && PrefixesDistinct(denied)
      && WithinTotals(DeniedTotal(denied, |denied|))
    ensures ok ==> total == DeniedTotal(denied, |denied|) && seen == set i | 0 <= i < |denied| :: denied[i]
  {
    seen, total := {}, Account(0, 0);
    for i := 0 to |denied|
      invariant forall k :: 0 <= k < i ==> PrefixAccepted(denied[k])
      invariant PrefixesDistinct(denied[..i])
      invariant total == DeniedTotal(denied, i) && WithinTotals(total)
      invariant seen == set k | 0 <= k < i :: denied[k]
    {
      if !PrefixAccepted(denied[i]) {
        return false, seen, total;
      }
      total := Plus(total, denied[i]);
      if !WithinTotals(total) {
        DeniedTotalGrows(denied, i + 1, |denied|);
        return false, seen, total;
      }
      if denied[i] in seen {
        return false, seen, total;
      }
      seen := seen + {denied[i]};
    }
    assert denied[..|denied|] == denied;
    ok := true;
  }

  method CheckOverlap(constrained: seq<Constraint>) returns (ok: bool)
    ensures ok <==> NoOverlap(constrained)
  {
    for i := 0 to |constrained|
      invariant forall a, b :: 0 <= a < b < |constrained| && a < i ==>
        !(constrained[a].prefix <= constrained[b].prefix) && !(constrained[b].prefix <= constrained[a].prefix)
    {
      for j := i + 1 to |constrained|
        invariant forall b :: i < b < j ==>
          !(constrained[i].prefix <= constrained[b].prefix) && !(constrained[b].prefix <= constrained[i].prefix)
      {
        if constrained[i].prefix <= constrained[j].prefix || constrained[j].prefix <= constrained[i].prefix {
          return false;
        }
      }
    }
    return true;
  }

  ghost predicate Acceptable(constraint: Constraint, denied: set<seq<string>>) {
    PrefixAccepted(constraint.prefix) && AllowedAccepted(constraint.allowed) && constraint.prefix !in denied
  }

  ghost predicate PrefixesApart(constrained: seq<Constraint>) {
    forall i, j :: 0 <= i < j < |constrained| ==> constrained[i].prefix != constrained[j].prefix
  }

  ghost function PrefixSet(constrained: seq<Constraint>, n: nat): set<seq<string>>
    requires n <= |constrained|
  {
    set k | 0 <= k < n :: constrained[k].prefix
  }

  method ValidateConstrained(constrained: seq<Constraint>, denied: set<seq<string>>, from: Account)
    returns (ok: bool)
    requires WithinTotals(from)
    ensures ok <==>
      && WithinTotals(ConstrainedTotal(from, constrained, |constrained|))
      && PrefixesApart(constrained)
      && forall i :: 0 <= i < |constrained| ==> Acceptable(constrained[i], denied)
  {
    hide PrefixAccepted, AllowedAccepted, Plus;
    var seen, total := denied, from;
    for i := 0 to |constrained|
      invariant forall k :: 0 <= k < i ==> Acceptable(constrained[k], denied)
      invariant PrefixesApart(constrained[..i])
      invariant seen == denied + PrefixSet(constrained, i)
      invariant total == ConstrainedTotal(from, constrained, i) && WithinTotals(total)
    {
      var constraint := constrained[i];
      if !PrefixAccepted(constraint.prefix) || !AllowedAccepted(constraint.allowed) {
        return false;
      }
      if constraint.prefix in seen {
        assert Acceptable(constraint, denied) ==> constraint.prefix in PrefixSet(constrained, i);
        return false;
      }
      seen := seen + {constraint.prefix};
      assert seen == denied + PrefixSet(constrained, i + 1);
      total := Plus(Plus(total, constraint.prefix), constraint.allowed);
      if !WithinTotals(total) {
        ConstrainedTotalGrows(from, constrained, i + 1, |constrained|);
        return false;
      }
    }
    assert constrained[..|constrained|] == constrained;
    return true;
  }

  /** Prefixes that do not overlap are in particular different. */
  lemma ApartWhenNoOverlap(constrained: seq<Constraint>)
    ensures NoOverlap(constrained) ==> PrefixesApart(constrained)
  {
  }

  method ValidateArgumentRules(rules: Rules) returns (ok: bool)
    ensures ok <==> RulesAccepted(rules)
  {
    hide PrefixAccepted, AllowedAccepted, Plus;
    if |rules.denied| > MAX_TYPED_ARGUMENT_RULES || |rules.constrained| > MAX_TYPED_ARGUMENT_RULES {
      return false;
    }
    var seen: set<seq<string>>, total: Account;
    ok, seen, total := ValidateDenied(rules.denied);
    if !ok {
      ConstrainedTotalGrows(DeniedTotal(rules.denied, |rules.denied|), rules.constrained, 0, |rules.constrained|);
      return;
    }
    assert forall prefix :: prefix in seen <==> prefix in rules.denied;
    ApartWhenNoOverlap(rules.constrained);
    ok := ValidateConstrained(rules.constrained, seen, total);
    if ok {
      ok := CheckOverlap(rules.constrained);
    }
  }

  /** Refuses an argv that starts with a denied prefix or continues a constrained one wrongly. */
  method EnforceArgumentRules(argv: seq<string>, rules: Rules) returns (ok: bool)
    ensures ok <==>
      && (forall prefix :: prefix in rules.denied ==> !(prefix <= argv))
      && (forall i :: 0 <= i < |rules.constrained| && Applies(rules.constrained[i], argv) ==>
            NextTokenAllowed(rules.constrained[i], argv))
  {
    if exists prefix :: prefix in rules.denied && prefix <= argv {
      return false;
    }
    for i := 0 to |rules.constrained|
      invariant forall k :: 0 <= k < i && Applies(rules.constrained[k], argv) ==>
        NextTokenAllowed(rules.constrained[k], argv)
    {
      if Applies(rules.constrained[i], argv) && !NextTokenAllowed(rules.constrained[i], argv) {
        return false;
      }
    }
    return true;
  }
}
