/**
 Argument mappings of typed actions: the cost that compilation projects and the argv that a run-time
 invocation really produces.
 */
module TypedActions {
  import opened Bytes
  import opened Text
  import opened ActionParameters
  import Json
  import InertWords

  const MAX_TYPED_MAPPINGS: nat := 512

  datatype Mapping =
    | Positional(parameter: string)
    | Flag(flag: string, parameter: string, omitIfEmpty: bool)
    | BoolFlag(flag: string, parameter: string)
    | RepeatedFlag(flag: string, parameter: string)
    | Passthrough(parameter: string)
    | JsonFlag(flag: string, parameter: string)
    | Literal(arguments: seq<string>)
    | SplitPositional(parameter: string, maxItems: nat, maxItemBytes: nat)
    | RuntimeControl(parameter: string)
  {
    function FlagBytes(): nat {
      if Flag? || BoolFlag? || RepeatedFlag? || JsonFlag? then ByteLen(flag) else 0
    }

    predicate FlagAccepted() {
      (Flag? || BoolFlag? || RepeatedFlag? || JsonFlag?) ==>
        && ByteLen(flag) <= MAX_ARGUMENT_BYTES
        && flag != "-" && flag != "--"
        && flag != "" && flag[0] == '-'
        && !HasControl(flag)
    }
  }

  datatype Limits = Limits(maxItems: nat, maxItemBytes: nat, maxCombinedBytes: nat, rejectControls: bool)

  datatype MappingError = InvalidMapping | ProjectedInvocationTooLarge

  datatype InvocationError = InvalidParameter | InvalidInput | InvocationTooLarge

  datatype Cost = Cost(items: nat, bytes: nat)

  // ----- Projection

  function Saturated(n: nat): nat {
    if n > U64_MAX then U64_MAX else n
  }

  /** The most a mapping can add to argv, for a parameter of the given shape. */
  function MappingProjection(mapping: Mapping, shape: Shape): Option<Cost> {
    match (mapping, shape)
    case (Positional(_), Scalar(maxBytes)) => Some(Cost(1, maxBytes))
    case (Flag(_, _, _), Scalar(maxBytes)) => Some(Cost(2, Saturated(mapping.FlagBytes() + maxBytes)))
    case (Flag(_, _, _), Boolean) => Some(Cost(2, Saturated(mapping.FlagBytes() + 5)))
    case (BoolFlag(_, _), Boolean) => Some(Cost(1, mapping.FlagBytes()))
    case (RepeatedFlag(_, _), StringArray(items, itemBytes)) =>
      Some(Cost(Saturated(items * 2), Saturated(items * Saturated(mapping.FlagBytes() + itemBytes))))
    case (Passthrough(_), StringArray(items, itemBytes)) => Some(Cost(items, Saturated(items * itemBytes)))
    case (JsonFlag(_, _), JsonObject(maxBytes)) => Some(Cost(2, Saturated(mapping.FlagBytes() + maxBytes)))
    case (JsonFlag(_, _), JsonArray(maxBytes)) => Some(Cost(2, Saturated(mapping.FlagBytes() + maxBytes)))
    case (SplitPositional(_, maxItems, maxItemBytes), Scalar(maxBytes)) =>
      if maxItems == 0 || maxItemBytes == 0 || maxItemBytes > MAX_ARGUMENT_BYTES then None
      else Some(Cost(maxItems, Min(maxBytes, Saturated(maxItems * maxItemBytes))))
    case (RuntimeControl(_), _) => Some(Cost(0, 0))
    case _ => None
  }

  /** Tokens that a package may write into argv itself. */
  predicate FixedArgumentsAccepted(arguments: seq<string>) {
    && (forall argument :: argument in arguments ==>
          argument != "" && ByteLen(argument) <= MAX_ARGUMENT_BYTES && !HasControl(argument))
    && TotalByteLen(arguments) <= MAX_FIXED_ARGUMENT_BYTES
  }

  /** What one mapping is charged; `None` when it is rejected on its own. */
  function MappingCost(mapping: Mapping, shapes: map<string, Shape>): Option<Cost> {
    if mapping.Literal? then
      if FixedArgumentsAccepted(mapping.arguments)
      then Some(Cost(|mapping.arguments|, TotalByteLen(mapping.arguments))) else None
    else if mapping.parameter in shapes && mapping.FlagAccepted() then
      MappingProjection(mapping, shapes[mapping.parameter])
    else None
  }

  ghost predicate CostsKnown(mappings: seq<Mapping>, shapes: map<string, Shape>) {
    forall i :: 0 <= i < |mappings| ==> MappingCost(mappings[i], shapes).Some?
  }

  /** The projected cost of the first `n` mappings. */
  ghost function ProjectedTotal(mappings: seq<Mapping>, shapes: map<string, Shape>, n: nat): Cost
    requires n <= |mappings|
  {
    if n == 0 then Cost(0, 0)
    else
      var before := ProjectedTotal(mappings, shapes, n - 1);
      match MappingCost(mappings[n - 1], shapes)
      case None => before
      case Some(cost) => Cost(before.items + cost.items, before.bytes + cost.bytes)
  }

  /** The parameters mapped by the first `n` mappings. */
  ghost function MappedParameters(mappings: seq<Mapping>, n: nat): set<string>
    requires n <= |mappings|
  {
    set i | 0 <= i < n && !mappings[i].Literal? :: mappings[i].parameter
  }

  /** No parameter is mapped twice by the first `n` mappings. */
  ghost predicate MappedOnce(mappings: seq<Mapping>, n: nat)
    requires n <= |mappings|
  {
    forall i, j :: 0 <= i < j < n && !mappings[i].Literal? && !mappings[j].Literal? ==>
      mappings[i].parameter != mappings[j].parameter
  }

  /** Compilation accepts exactly these mappings: complete, unambiguous, and within the base limits. */
  ghost predicate MappingsAccepted(mappings: seq<Mapping>, shapes: map<string, Shape>, limits: Limits) {
    && |mappings| <= MAX_TYPED_MAPPINGS
    && MappedOnce(mappings, |mappings|)
    && CostsKnown(mappings, shapes)
    && ProjectedTotal(mappings, shapes, |mappings|).items <= limits.maxItems
    && ProjectedTotal(mappings, shapes, |mappings|).bytes <= limits.maxCombinedBytes
    && MappedParameters(mappings, |mappings|) == shapes.Keys
  }

  lemma {:induction false} TotalsGrow(mappings: seq<Mapping>, shapes: map<string, Shape>, n: nat, m: nat)
    requires n <= m <= |mappings|
    ensures ProjectedTotal(mappings, shapes, n).items <= ProjectedTotal(mappings, shapes, m).items
    ensures ProjectedTotal(mappings, shapes, n).bytes <= ProjectedTotal(mappings, shapes, m).bytes
    decreases m - n
  {
    hide MappingCost;
    if n < m {
      TotalsGrow(mappings, shapes, n, m - 1);
    }
  }

  lemma ParametersStep(mappings: seq<Mapping>, n: nat)
    requires n < |mappings|
    ensures MappedParameters(mappings, n + 1)
         == MappedParameters(mappings, n) + if mappings[n].Literal? then {} else {mappings[n].parameter}
  {
  }

  lemma OnceStep(mappings: seq<Mapping>, n: nat)
    requires n < |mappings|
    ensures MappedOnce(mappings, n + 1) <==>
      MappedOnce(mappings, n) && (mappings[n].Literal? || mappings[n].parameter !in MappedParameters(mappings, n))
    ensures MappedOnce(mappings, |mappings|) ==> MappedOnce(mappings, n + 1)
  {
  }

  /** The seen set has as many members as there are parameters exactly when it has all of them. */
  lemma SameSizeSameSet(seen: set<string>, all: set<string>)
    requires seen <= all
    ensures |seen| == |all| <==> seen == all
  {
    assert all == seen + (all - seen);
    assert |all| == |seen| + |all - seen|;
  }

  lemma TotalStep(mappings: seq<Mapping>, shapes: map<string, Shape>, n: nat)
    requires n < |mappings|
    ensures MappingCost(mappings[n], shapes).Some? ==>
      var before, cost := ProjectedTotal(mappings, shapes, n), MappingCost(mappings[n], shapes).value;
      ProjectedTotal(mappings, shapes, n + 1) == Cost(before.items + cost.items, before.bytes + cost.bytes)
  {
    hide MappingCost;
  }

  lemma FirstOnce(mappings: seq<Mapping>, shapes: map<string, Shape>)
    ensures MappedOnce(mappings, 0) && MappedParameters(mappings, 0) == {}
    ensures ProjectedTotal(mappings, shapes, 0) == Cost(0, 0)
  {
  }

  lemma KnownCostKnownParameter(mapping: Mapping, shapes: map<string, Shape>)
    ensures MappingCost(mapping, shapes).Some? && !mapping.Literal? ==> mapping.parameter in shapes
  {
  }

  method ValidateMappings(mappings: seq<Mapping>, shapes: map<string, Shape>, limits: Limits)
    returns (r: Result<(), MappingError>)
    ensures r.Ok? <==> MappingsAccepted(mappings, shapes, limits)
    ensures r == Err(ProjectedInvocationTooLarge) ==>
      var total := ProjectedTotal(mappings, shapes, |mappings|);
      total.items > limits.maxItems || total.bytes > limits.maxCombinedBytes
    ensures r == Err(InvalidMapping) ==>
      || |mappings| > MAX_TYPED_MAPPINGS || !MappedOnce(mappings, |mappings|) || !CostsKnown(mappings, shapes)
      || MappedParameters(mappings, |mappings|) != shapes.Keys
  {
    if |mappings| > MAX_TYPED_MAPPINGS {
      return Err(InvalidMapping);
    }
    hide MappingCost, MappedParameters, MappedOnce, ProjectedTotal;
    FirstOnce(mappings, shapes);
    var seen: set<string> := {};
    var projected := Cost(0, 0);
    for i := 0 to |mappings|
      invariant forall k :: 0 <= k < i ==> MappingCost(mappings[k], shapes).Some?
      invariant projected == ProjectedTotal(mappings, shapes, i)
      invariant projected.items <= limits.maxItems && projected.bytes <= limits.maxCombinedBytes
      invariant seen == MappedParameters(mappings, i) <= shapes.Keys
      invariant MappedOnce(mappings, i)
    {
      var mapping := mappings[i];
      OnceStep(mappings, i);
      ParametersStep(mappings, i);
      TotalStep(mappings, shapes, i);
      KnownCostKnownParameter(mapping, shapes);
      if !mapping.Literal? {
        if mapping.parameter in seen {
          return Err(InvalidMapping);
        }
        seen := seen + {mapping.parameter};
      }
      var cost := MappingCost(mapping, shapes);
      if cost.None? {
        return Err(InvalidMapping);
      }
      projected := Cost(projected.items + cost.value.items, projected.bytes + cost.value.bytes);
      if projected.items > limits.maxItems || projected.bytes > limits.maxCombinedBytes {
        TotalsGrow(mappings, shapes, i + 1, |mappings|);
        return Err(ProjectedInvocationTooLarge);
      }
    }
    SameSizeSameSet(seen, shapes.Keys);
    assert |shapes| == |shapes.Keys|;
    if |seen| != |shapes| {
      return Err(InvalidMapping);
    }
    r := Ok(());
  }

  // ----- Lowering

  function Digits(n: nat): (s: string)
    ensures s != "" && forall i :: 0 <= i < |s| ==> '0' <= s[i] <= '9'
  {
    var digit := ('0' as int + n % 10) as char;
    if n < 10 then [digit] else Digits(n / 10) + [digit]
  }

  function PrintInteger(n: int): string {
    if n < 0 then ['-'] + Digits(-n) else Digits(n)
  }

  function PrintNumber(number: Json.Number): string {
    match number
    case Integer(n) => PrintInteger(n)
    case Float(_, text) => text
  }

  function ScalarArgument(value: Json.Value): Option<string> {
    match value
    case Str(text) => Some(text)
    case Num(number) => Some(PrintNumber(number))
    case Bool(bit) => Some(if bit then "true" else "false")
    case _ => None
  }

  function Texts(values: seq<Json.Value>): Option<seq<string>> {
    if values == [] then Some([])
    else
      var rest := Texts(values[1..]);
      if values[0].Str? && rest.Some? then Some([values[0].text] + rest.value) else None
  }

  /** Each word preceded by the flag. */
  function Flagged(flag: string, words: seq<string>): seq<string> {
    if words == [] then [] else [flag, words[0]] + Flagged(flag, words[1..])
  }

  /** The tokens that one mapping adds for a value; `None` when the value cannot be lowered. */
  function Lowered(mapping: Mapping, value: Json.Value, encode: Encoder): Option<seq<string>> {
    match mapping
    case Positional(_) =>
      var text := ScalarArgument(value);
      if text.Some? then Some([text.value]) else None
    case Flag(flag, _, omitIfEmpty) =>
      var text := ScalarArgument(value);
      if omitIfEmpty && value == Json.Str("") then Some([])
      else if text.Some? then Some([flag, text.value]) else None
    case BoolFlag(flag, _) =>
      if !value.Bool? then None else if value.bit then Some([flag]) else Some([])
    case RepeatedFlag(flag, _) =>
      if !value.Array? || Texts(value.items).None? then None else Some(Flagged(flag, Texts(value.items).value))
    case Passthrough(_) =>
      if !value.Array? then None else Texts(value.items)
    case JsonFlag(flag, _) =>
      if encode(value).None? then None else Some([flag, encode(value).value])
    case Literal(arguments) => Some(arguments)
    case SplitPositional(_, maxItems, maxItemBytes) =>
      if !value.Str? || InertWords.Split(value.text).None? then None
      else
        var words := InertWords.Split(value.text).value;
        if |words| <= maxItems && forall word :: word in words ==> ByteLen(word) <= maxItemBytes
        then Some(words) else None
    case RuntimeControl(_) => None
  }

  /** Why a value is refused: words that split but are too many or too long, or a value of the wrong kind. */
  function LoweringRefusal(mapping: Mapping, value: Json.Value): InvocationError {
    if mapping.SplitPositional? && value.Str? && InertWords.Split(value.text).Some? then InvocationTooLarge
    else InvalidParameter
  }

  lemma {:induction false} TextsStep(values: seq<Json.Value>, i: nat)
    requires i < |values|
    ensures Texts(values[..i]).Some? && values[i].Str? ==>
      Texts(values[..i + 1]) == Some(Texts(values[..i]).value + [values[i].text])
    ensures Texts(values[..i]).None? || !values[i].Str? ==> Texts(values[..i + 1]).None?
    decreases i
  {
    if i == 0 {
      assert values[..1] == [values[0]];
      assert [values[0]][1..] == [] && values[..0] == [];
      if values[0].Str? {
        assert [values[0].text] + [] == [] + [values[0].text];
      }
    } else {
      TextsStep(values[1..], i - 1);
      assert values[..i + 1][1..] == values[1..][..i] && values[..i][1..] == values[1..][..i - 1];
      var rest := Texts(values[1..][..i - 1]);
      if rest.Some? && values[0].Str? && values[i].Str? {
        assert [values[0].text] + (rest.value + [values[i].text]) == [values[0].text] + rest.value + [values[i].text];
      }
    }
  }

  lemma {:induction false} TextsPrefixFails(values: seq<Json.Value>, i: nat)
    requires i <= |values| && Texts(values[..i]).None?
    ensures Texts(values).None?
    decreases |values| - i
  {
    if i == |values| {
      assert values[..i] == values;
    } else {
      TextsStep(values, i);
      TextsPrefixFails(values, i + 1);
    }
  }

  lemma {:induction false} FlaggedAppend(flag: string, a: seq<string>, word: string)
    ensures Flagged(flag, a + [word]) == Flagged(flag, a) + [flag, word]
  {
    if a == [] {
      assert a + [word] == [word];
      assert [word][1..] == [];
    } else {
      assert (a + [word])[1..] == a[1..] + [word];
      FlaggedAppend(flag, a[1..], word);
    }
  }

  /** Appends what a mapping lowers to, one token at a time. */
  method LowerMapping(mapping: Mapping, value: Json.Value, encode: Encoder, arguments: seq<string>)
    returns (r: Result<seq<string>, InvocationError>)
    ensures r.Ok? <==> Lowered(mapping, value, encode).Some?
    ensures r.Ok? ==> r.value == arguments + Lowered(mapping, value, encode).value
    ensures r.Err? ==> r.error == LoweringRefusal(mapping, value)
  {
    var output := arguments;
    match mapping {
      case Positional(_) =>
        var text := ScalarArgument(value);
        if text.None? {
          return Err(InvalidParameter);
        }
        output := output + [text.value];
      case Flag(flag, _, omitIfEmpty) =>
        if omitIfEmpty && value == Json.Str("") {
          return Ok(output);
        }
        var text := ScalarArgument(value);
        if text.None? {
          return Err(InvalidParameter);
        }
        output := output + [flag];
        output := output + [text.value];
      case BoolFlag(flag, _) =>
        if !value.Bool? {
          return Err(InvalidParameter);
        }
        if value.bit {
          output := output + [flag];
        }
      case RepeatedFlag(_, _) =>
        r := LowerItems(Some(mapping.flag), value, output);
        return;
      case Passthrough(_) =>
        r := LowerItems(None, value, output);
        return;
      case JsonFlag(flag, _) =>
        var text := encode(value);
        if text.None? {
          return Err(InvalidParameter);
        }
        output := output + [flag];
        output := output + [text.value];
      case Literal(tokens) =>
        output := output + tokens;
      case SplitPositional(_, maxItems, maxItemBytes) =>
        if !value.Str? {
          return Err(InvalidParameter);
        }
        var split := InertWords.SplitInertWords(value.text);
        if split.Err? {
          return Err(InvalidParameter);
        }
        if |split.value| > maxItems || exists word :: word in split.value && ByteLen(word) > maxItemBytes {
          return Err(InvocationTooLarge);
        }
        output := output + split.value;
      case RuntimeControl(_) =>
        return Err(InvalidParameter);
    }
    r := Ok(output);
  }

  /** Appends the strings of an array value, each behind the flag if there is one. */
  method LowerItems(flag: Option<string>, value: Json.Value, arguments: seq<string>)
    returns (r: Result<seq<string>, InvocationError>)
    ensures r.Ok? <==> value.Array? && Texts(value.items).Some?
    ensures r.Ok? ==>
      r.value == arguments
        + if flag.Some? then Flagged(flag.value, Texts(value.items).value) else Texts(value.items).value
    ensures r.Err? ==> r.error == InvalidParameter
  {
    if !value.Array? {
      return Err(InvalidParameter);
    }
    var output := arguments;
    for i := 0 to |value.items|
      invariant Texts(value.items[..i]).Some?
      invariant output == arguments
        + if flag.Some? then Flagged(flag.value, Texts(value.items[..i]).value) else Texts(value.items[..i]).value
    {
      TextsStep(value.items, i);
      if !value.items[i].Str? {
        TextsPrefixFails(value.items, i + 1);
        return Err(InvalidParameter);
      }
      if flag.Some? {
        FlaggedAppend(flag.value, Texts(value.items[..i]).value, value.items[i].text);
        output := output + [flag.value];
      }
      output := output + [value.items[i].text];
    }
    assert value.items[..|value.items|] == value.items;
    r := Ok(output);
  }

  // ----- The projection bounds the lowering

  function Power(n: nat): nat {
    if n == 0 then 1 else 10 * Power(n - 1)
  }

  lemma {:induction false} PowerAdds(a: nat, b: nat)
    ensures Power(a + b) == Power(a) * Power(b)
  {
    if a > 0 {
      PowerAdds(a - 1, b);
    }
  }

  lemma {:induction false} DigitsFit(n: nat, k: nat)
    requires k > 0 && n < Power(k)
    ensures |Digits(n)| <= k
  {
    if n >= 10 {
      DigitsFit(n / 10, k - 1);
    }
  }

  /** A printed integer of a JSON number takes at most twenty bytes. */
  lemma IntegerPrintFits(n: Json.JsonInteger)
    ensures ByteLen(PrintInteger(n)) <= 20
  {
    assert Power(5) == 100_000;
    PowerAdds(5, 5);
    PowerAdds(10, 10);
    assert Power(20) == 10 * Power(19);
    if n < 0 {
      DigitsFit(-n, 19);
    } else {
      DigitsFit(n, 20);
    }
    ByteLenOfAscii(PrintInteger(n));
  }

  lemma {:induction false} TotalIsBounded(words: seq<string>, each: nat)
    requires forall word :: word in words ==> ByteLen(word) <= each
    ensures TotalByteLen(words) <= |words| * each
  {
    if words != [] {
      assert words[0] in words;
      TotalIsBounded(words[1..], each);
      assert |words| * each == each + (|words| - 1) * each;
    }
  }

  lemma {:induction false} FlaggedCost(flag: string, words: seq<string>)
    ensures |Flagged(flag, words)| == 2 * |words|
    ensures TotalByteLen(Flagged(flag, words)) == |words| * ByteLen(flag) + TotalByteLen(words)
  {
    if words != [] {
      FlaggedCost(flag, words[1..]);
      var tail := Flagged(flag, words[1..]);
      TotalByteLenAppend([flag, words[0]], tail);
      assert [flag, words[0]][1..] == [words[0]] && [words[0]][1..] == [];
      assert TotalByteLen([flag, words[0]]) == ByteLen(flag) + ByteLen(words[0]);
      assert |words| * ByteLen(flag) == ByteLen(flag) + (|words| - 1) * ByteLen(flag);
    }
  }

  lemma {:induction false} TextsAreItems(values: seq<Json.Value>)
    requires Texts(values).Some?
    ensures |Texts(values).value| == |values|
    ensures forall i :: 0 <= i < |values| ==> values[i].Str? && Texts(values).value[i] == values[i].text
  {
    if values != [] {
      TextsAreItems(values[1..]);
    }
  }

  lemma PairCost(a: string, b: string)
    ensures TotalByteLen([a]) == ByteLen(a) && TotalByteLen([a, b]) == ByteLen(a) + ByteLen(b)
  {
    assert [a][1..] == [] && [a, b][1..] == [b] && [b][1..] == [];
  }

  lemma TextFits(parameter: Parameter, maximum: nat, value: Json.Value, encode: Encoder)
    requires value.Str? && CompileParameter(parameter, maximum).Some?
    requires RuntimeValid(Compiled(parameter, maximum), value, encode)
    ensures CompileParameter(parameter, maximum).value.Scalar?
    ensures ByteLen(value.text) <= CompileParameter(parameter, maximum).value.maxBytes
  {
    hide ByteLen, TotalByteLen, HasControl, StringArrayBounds;
  }

  lemma NumberFits(parameter: Parameter, maximum: nat, value: Json.Value, encode: Encoder)
    requires value.Num? && CompileParameter(parameter, maximum).Some?
    requires RuntimeValid(Compiled(parameter, maximum), value, encode)
    ensures CompileParameter(parameter, maximum).value.Scalar?
    ensures ByteLen(PrintNumber(value.number)) <= CompileParameter(parameter, maximum).value.maxBytes
  {
    hide ByteLen, TotalByteLen, HasControl, StringArrayBounds, PrintInteger;
    match value.number {
      case Integer(n) => IntegerPrintFits(n);
      case Float(_, text) => ByteLenOfAscii(text);
    }
  }

  lemma BitFits(parameter: Parameter, maximum: nat, value: Json.Value, encode: Encoder)
    requires value.Bool? && CompileParameter(parameter, maximum).Some?
    requires RuntimeValid(Compiled(parameter, maximum), value, encode)
    ensures CompileParameter(parameter, maximum).value.Boolean?
    ensures ByteLen("true") <= 5 && ByteLen("false") <= 5
  {
    ByteLenOfAscii("true");
    ByteLenOfAscii("false");
    hide ByteLen, TotalByteLen, HasControl, StringArrayBounds;
  }

  /** A value accepted at run time prints within the bytes its shape promises. */
  lemma ScalarFits(parameter: Parameter, maximum: nat, value: Json.Value, encode: Encoder)
    requires CompileParameter(parameter, maximum).Some?
    requires RuntimeValid(Compiled(parameter, maximum), value, encode)
    requires ScalarArgument(value).Some?
    ensures var shape := CompileParameter(parameter, maximum).value;
      && (shape.Scalar? ==> ByteLen(ScalarArgument(value).value) <= shape.maxBytes)
      && (shape.Boolean? ==> ByteLen(ScalarArgument(value).value) <= 5)
  {
    hide CompileParameter, RuntimeValid, Compiled, ByteLen, PrintNumber;
    match value {
      case Str(_) => TextFits(parameter, maximum, value, encode);
      case Num(_) => NumberFits(parameter, maximum, value, encode);
      case Bool(_) => BitFits(parameter, maximum, value, encode);
    }
  }

  /** The array mappings: as many tokens as items, each within the item limit. */
  lemma ArrayFits(mapping: Mapping, parameter: Parameter, maximum: nat, value: Json.Value, encode: Encoder)
    requires mapping.RepeatedFlag? || mapping.Passthrough?
    requires mapping.FlagAccepted()
    requires CompileParameter(parameter, maximum).Some?
    requires RuntimeValid(Compiled(parameter, maximum), value, encode)
    requires MappingProjection(mapping, CompileParameter(parameter, maximum).value).Some?
    requires Lowered(mapping, value, encode).Some?
    ensures var cost := MappingProjection(mapping, CompileParameter(parameter, maximum).value).value;
      var added := Lowered(mapping, value, encode).value;
      |added| <= cost.items && TotalByteLen(added) <= cost.bytes
  {
    var b := StringArrayBounds(parameter.minItems, parameter.maxItems, parameter.maxItemBytes);
    assert BoundsAccepted(b);
    var words := Texts(value.items).value;
    TextsAreItems(value.items);
    TotalIsBounded(words, b.itemBytes);
    hide StringArrayBounds, BoundsAccepted;
    ArrayCost(|words|, b.maximum, b.itemBytes, mapping.FlagBytes());
    if mapping.RepeatedFlag? {
      FlaggedCost(mapping.flag, words);
    }
  }

  lemma ArrayCost(count: nat, items: nat, itemBytes: nat, flagBytes: nat)
    requires count <= items <= MAX_FIXED_ARGUMENTS
    requires itemBytes <= MAX_ARGUMENT_BYTES && flagBytes <= MAX_ARGUMENT_BYTES
    ensures count * itemBytes <= items * itemBytes <= U64_MAX
    ensures count * flagBytes + count * itemBytes <= items * (flagBytes + itemBytes) <= U64_MAX
  {
    Monotone(count, items, itemBytes);
    Monotone(count, items, flagBytes);
    Monotone(items, MAX_FIXED_ARGUMENTS, itemBytes);
    Monotone(items, MAX_FIXED_ARGUMENTS, flagBytes);
    assert items * (flagBytes + itemBytes) == items * flagBytes + items * itemBytes;
  }

  lemma Monotone(a: nat, b: nat, c: nat)
    requires a <= b
    ensures a * c <= b * c
  {
  }

  /** Split words are no longer than their source, and each within its own limit. */
  lemma SplitFits(mapping: Mapping, parameter: Parameter, maximum: nat, value: Json.Value, encode: Encoder)
    requires mapping.SplitPositional?
    requires CompileParameter(parameter, maximum).Some? && maximum <= U64_MAX
    requires RuntimeValid(Compiled(parameter, maximum), value, encode)
    requires MappingProjection(mapping, CompileParameter(parameter, maximum).value).Some?
    requires Lowered(mapping, value, encode).Some?
    ensures var cost := MappingProjection(mapping, CompileParameter(parameter, maximum).value).value;
      var added := Lowered(mapping, value, encode).value;
      |added| <= cost.items && TotalByteLen(added) <= cost.bytes
  {
    var words := Lowered(mapping, value, encode).value;
    InertWords.SplitConservesBytes(value.text);
    TotalIsBounded(words, mapping.maxItemBytes);
    Monotone(|words|, mapping.maxItems, mapping.maxItemBytes);
    ScalarFits(parameter, maximum, value, encode);
  }

  /**
   Whatever value passes run-time validation, the tokens lowered from it stay within what compilation
   projected for its mapping.
   */
  lemma LoweringWithinProjection(mapping: Mapping, parameter: Parameter, maximum: nat, value: Json.Value, encode: Encoder)
    requires !mapping.Literal? && mapping.FlagAccepted() && maximum <= MAX_TYPED_RUNTIME_CONTROL_STRING_BYTES
    requires CompileParameter(parameter, maximum).Some?
    requires MappingProjection(mapping, CompileParameter(parameter, maximum).value).Some?
    requires RuntimeValid(Compiled(parameter, maximum), value, encode)
    requires Lowered(mapping, value, encode).Some?
    ensures var cost := MappingProjection(mapping, CompileParameter(parameter, maximum).value).value;
      var added := Lowered(mapping, value, encode).value;
      |added| <= cost.items && TotalByteLen(added) <= cost.bytes
  {
    hide ByteLen, HasControl, StringArrayBounds, Json.Nodes, Json.Depth;
    match mapping {
      case RepeatedFlag(_, _) => ArrayFits(mapping, parameter, maximum, value, encode);
      case Passthrough(_) => ArrayFits(mapping, parameter, maximum, value, encode);
      case SplitPositional(_, _, _) => SplitFits(mapping, parameter, maximum, value, encode);
      case Positional(_) =>
        ScalarFits(parameter, maximum, value, encode);
        PairCost(ScalarArgument(value).value, "");
      case Flag(flag, _, _) =>
        if Lowered(mapping, value, encode).value != [] {
          ScalarFits(parameter, maximum, value, encode);
          PairCost(flag, ScalarArgument(value).value);
        }
      case BoolFlag(flag, _) => PairCost(flag, "");
      case JsonFlag(flag, _) => PairCost(flag, encode(value).value);
      case RuntimeControl(_) =>
    }
  }

  // ----- A whole action

  datatype Action = Action(parameters: map<string, Parameter>, mappings: seq<Mapping>, limits: Limits)

  /** Run-time controls may be longer than arguments. */
  function MaximumBytes(action: Action, name: string): (n: nat)
    ensures n <= MAX_TYPED_RUNTIME_CONTROL_STRING_BYTES
  {
    if RuntimeControl(name) in action.mappings then MAX_TYPED_RUNTIME_CONTROL_STRING_BYTES else MAX_ARGUMENT_BYTES
  }

  ghost predicate ParametersCompile(action: Action) {
    forall name :: name in action.parameters ==>
      CompileParameter(action.parameters[name], MaximumBytes(action, name)).Some?
  }

  ghost function ShapesOf(action: Action): map<string, Shape>
    requires ParametersCompile(action)
  {
    map name | name in action.parameters ::
      CompileParameter(action.parameters[name], MaximumBytes(action, name)).value
  }

  ghost predicate ActionCompiles(action: Action) {
    ParametersCompile(action) && MappingsAccepted(action.mappings, ShapesOf(action), action.limits)
  }

  function RuntimeParameter(action: Action, name: string): Parameter
    requires name in action.parameters
  {
    Compiled(action.parameters[name], MaximumBytes(action, name))
  }

  /** The value an invocation gives a parameter, its default when it gives none. */
  function ValueOf(action: Action, input: map<string, Json.Value>, name: string): Option<Json.Value>
    requires name in action.parameters
  {
    if name in input then Some(input[name]) else DefaultValue(RuntimeParameter(action, name))
  }

  /** What one mapping contributes for an invocation; `None` when the invocation is refused. */
  function Contribution(action: Action, input: map<string, Json.Value>, encode: Encoder, mapping: Mapping): Option<seq<string>> {
    if mapping.Literal? then Some(mapping.arguments)
    else if mapping.parameter !in action.parameters then None
    else
      var value := ValueOf(action, input, mapping.parameter);
      if value.None? then Some([])
      else if !RuntimeValid(RuntimeParameter(action, mapping.parameter), value.value, encode) then None
      else if mapping.RuntimeControl? then Some([])
      else Lowered(mapping, value.value, encode)
  }

  /** Why one mapping refuses an invocation; an invalid value is refused before it is lowered. */
  function MappingRefusal(action: Action, input: map<string, Json.Value>, encode: Encoder, mapping: Mapping): InvocationError
    requires Contribution(action, input, encode, mapping).None?
  {
    if mapping.parameter !in action.parameters then InvalidInput
    else
      var value := ValueOf(action, input, mapping.parameter).value;
      if RuntimeValid(RuntimeParameter(action, mapping.parameter), value, encode) then LoweringRefusal(mapping, value)
      else InvalidParameter
  }

  ghost function Contributions(action: Action, input: map<string, Json.Value>, encode: Encoder, n: nat): Option<seq<string>>
    requires n <= |action.mappings|
  {
    if n == 0 then Some([])
    else
      var before := Contributions(action, input, encode, n - 1);
      var more := Contribution(action, input, encode, action.mappings[n - 1]);
      if before.None? || more.None? then None else Some(before.value + more.value)
  }

  lemma {:induction false} RefusedStaysRefused(action: Action, input: map<string, Json.Value>, encode: Encoder, n: nat, m: nat)
    requires n <= m <= |action.mappings| && Contributions(action, input, encode, n).None?
    ensures Contributions(action, input, encode, m).None?
    decreases m - n
  {
    if n < m {
      RefusedStaysRefused(action, input, encode, n, m - 1);
    }
  }

  lemma ContributionFits(action: Action, input: map<string, Json.Value>, encode: Encoder, i: nat)
    requires ActionCompiles(action) && i < |action.mappings|
    requires Contribution(action, input, encode, action.mappings[i]).Some?
    ensures MappingCost(action.mappings[i], ShapesOf(action)).Some?
    ensures var cost := MappingCost(action.mappings[i], ShapesOf(action)).value;
      var added := Contribution(action, input, encode, action.mappings[i]).value;
      |added| <= cost.items && TotalByteLen(added) <= cost.bytes
  {
    hide MappingProjection, CompileParameter, Compiled, RuntimeValid, Lowered, DefaultValue;
    var mapping := action.mappings[i];
    if !mapping.Literal? {
      var name := mapping.parameter;
      var value := ValueOf(action, input, name);
      if value.Some? && !mapping.RuntimeControl? {
        LoweringWithinProjection(mapping, action.parameters[name], MaximumBytes(action, name), value.value, encode);
      }
    }
  }

  /** An accepted action never adds more to argv than was projected, whatever the invocation. */
  lemma {:induction false} InvocationWithinProjection(
    action: Action, input: map<string, Json.Value>, encode: Encoder, n: nat)
    requires ActionCompiles(action) && n <= |action.mappings|
    requires Contributions(action, input, encode, n).Some?
    ensures var added := Contributions(action, input, encode, n).value;
      var total := ProjectedTotal(action.mappings, ShapesOf(action), n);
      |added| <= total.items && TotalByteLen(added) <= total.bytes
  {
    hide MappingsAccepted, Contribution, MappingCost;
    if n > 0 {
      InvocationWithinProjection(action, input, encode, n - 1);
      ContributionFits(action, input, encode, n - 1);
      TotalByteLenAppend(Contributions(action, input, encode, n - 1).value,
                         Contribution(action, input, encode, action.mappings[n - 1]).value);
    }
  }

  datatype LoweredInvocation = LoweredInvocation(arguments: seq<string>, controls: map<string, Json.Value>)

  /**
   The mapping loop of an invocation. Behind the fixed arguments it adds exactly the contributions of
   the mappings in order, at most the base limits' items and bytes.
   */
  method LowerMappings(action: Action, input: map<string, Json.Value>, encode: Encoder, fixed: seq<string>)
    returns (r: Result<LoweredInvocation, InvocationError>)
    requires ActionCompiles(action)
    ensures r.Ok? <==> Contributions(action, input, encode, |action.mappings|).Some?
    ensures r.Ok? ==>
      var added := Contributions(action, input, encode, |action.mappings|).value;
      && r.value.arguments == fixed + added
      && |added| <= action.limits.maxItems
      && TotalByteLen(added) <= action.limits.maxCombinedBytes
    ensures r.Err? ==> exists i ::
      && 0 <= i < |action.mappings| && Contributions(action, input, encode, i).Some?
      && Contribution(action, input, encode, action.mappings[i]).None?
      && r.error == MappingRefusal(action, input, encode, action.mappings[i])
    ensures r.Ok? ==> forall name :: name in r.value.controls ==>
      && RuntimeControl(name) in action.mappings && name in action.parameters
      && Some(r.value.controls[name]) == ValueOf(action, input, name)
      && RuntimeValid(RuntimeParameter(action, name), r.value.controls[name], encode)
  {
    hide ActionCompiles, Lowered, RuntimeValid, DefaultValue, Compiled;
    var arguments, controls := fixed, map[];
    for i := 0 to |action.mappings|
      invariant Contributions(action, input, encode, i).Some?
      invariant arguments == fixed + Contributions(action, input, encode, i).value
      invariant forall name :: name in controls ==>
        && RuntimeControl(name) in action.mappings && name in action.parameters
        && Some(controls[name]) == ValueOf(action, input, name)
        && RuntimeValid(RuntimeParameter(action, name), controls[name], encode)
    {
      var mapping := action.mappings[i];
      ghost var sofar := Contributions(action, input, encode, i).value;
      ghost var more := Contribution(action, input, encode, mapping);
      if more.None? {
        RefusedStaysRefused(action, input, encode, i + 1, |action.mappings|);
      } else {
        assert fixed + sofar + more.value == fixed + (sofar + more.value);
        assert sofar + [] == sofar;
      }
      if mapping.Literal? {
        arguments := arguments + mapping.arguments;
      } else if mapping.parameter !in action.parameters {
        return Err(InvalidInput);
      } else {
        var value := ValueOf(action, input, mapping.parameter);
        if value.Some? {
          var valid := ValidateRuntimeParameter(RuntimeParameter(action, mapping.parameter), value.value, encode);
          if !valid {
            return Err(InvalidParameter);
          }
          if mapping.RuntimeControl? {
            controls := controls[mapping.parameter := value.value];
          } else {
            var lowered := LowerMapping(mapping, value.value, encode, arguments);
            if lowered.Err? {
              return Err(lowered.error);
            }
            arguments := lowered.value;
          }
        }
      }
    }
    TotalWithinLimits(action, input, encode);
    r := Ok(LoweredInvocation(arguments, controls));
  }

  lemma TotalWithinLimits(action: Action, input: map<string, Json.Value>, encode: Encoder)
    requires ActionCompiles(action)
    requires Contributions(action, input, encode, |action.mappings|).Some?
    ensures var added := Contributions(action, input, encode, |action.mappings|).value;
      |added| <= action.limits.maxItems && TotalByteLen(added) <= action.limits.maxCombinedBytes
  {
    InvocationWithinProjection(action, input, encode, |action.mappings|);
  }
}
