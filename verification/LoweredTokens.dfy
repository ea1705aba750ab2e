/**
 The tokens a typed action really puts into argv: what each mapping writes for each kind of value, that a
 printed number reads back as itself, and that the projected cost is no more than some value needs.
 */
module LoweredTokens {
  import opened Bytes
  import opened Text
  import opened ActionParameters
  import opened TypedActions
  import Json
  import InertWords

  // ----- Decimal text

  predicate AllDigits(s: string) {
    forall i :: 0 <= i < |s| ==> '0' <= s[i] <= '9'
  }

  /** Reads digits from the left, most significant first, behind what was read before. */
  function ReadDigits(before: nat, s: string): nat
    requires AllDigits(s)
    decreases |s|
  {
    if s == "" then before else ReadDigits(10 * before + (s[0] as int - '0' as int), s[1..])
  }

  predicate IsDecimal(s: string) {
    s != "" && if s[0] == '-' then |s| > 1 && AllDigits(s[1..]) else AllDigits(s)
  }

  function ReadDecimal(s: string): int
    requires IsDecimal(s)
  {
    var size: int := ReadDigits(0, if s[0] == '-' then s[1..] else s);
    if s[0] == '-' then -size else size
  }

  lemma {:induction false} ReadDigitsAppend(before: nat, a: string, b: string)
    requires AllDigits(a) && AllDigits(b)
    ensures AllDigits(a + b) && ReadDigits(before, a + b) == ReadDigits(ReadDigits(before, a), b)
    decreases |a|
  {
    if a == "" {
      assert a + b == b;
    } else {
      assert (a + b)[1..] == a[1..] + b;
      ReadDigitsAppend(10 * before + (a[0] as int - '0' as int), a[1..], b);
    }
  }

  lemma {:induction false} DigitsReadBack(n: nat)
    ensures ReadDigits(0, Digits(n)) == n
    ensures Digits(n)[0] == '0' ==> n == 0 && |Digits(n)| == 1
  {
    var last := [('0' as int + n % 10) as char];
    assert ReadDigits(n / 10, last) == n / 10 * 10 + n % 10 by {
      assert last[1..] == "";
    }
    if n < 10 {
      assert Digits(n) == last;
    } else {
      DigitsReadBack(n / 10);
      ReadDigitsAppend(0, Digits(n / 10), last);
      assert Digits(n)[0] == Digits(n / 10)[0];
    }
  }

  /** A printed integer is a decimal without needless zeros that reads back as the integer. */
  lemma PrintedIntegerReadsBack(n: int)
    ensures IsDecimal(PrintInteger(n)) && ReadDecimal(PrintInteger(n)) == n
    ensures PrintInteger(n)[0] == '0' ==> PrintInteger(n) == "0"
    ensures PrintInteger(n)[0] == '-' ==> PrintInteger(n)[1] != '0'
  {
    if n < 0 {
      DigitsReadBack(-n);
      assert PrintInteger(n)[1..] == Digits(-n);
    } else {
      DigitsReadBack(n);
    }
  }

  /** Different integers are printed differently. */
  lemma IntegersPrintApart(n: int, m: int)
    requires PrintInteger(n) == PrintInteger(m)
    ensures n == m
  {
    PrintedIntegerReadsBack(n);
    PrintedIntegerReadsBack(m);
  }

  /** The text is what a scalar value is to appear as. */
  ghost predicate Shows(text: string, value: Json.Value) {
    match value
    case Str(s) => text == s
    case Num(Integer(n)) => IsDecimal(text) && ReadDecimal(text) == n && (text[0] == '0' ==> |text| == 1)
    case Num(Float(_, printed)) => text == printed
    case Bool(bit) => text == if bit then "true" else "false"
    case _ => false
  }

  lemma ScalarShows(value: Json.Value)
    ensures ScalarArgument(value).Some? <==> value.Str? || value.Num? || value.Bool?
    ensures ScalarArgument(value).Some? ==> Shows(ScalarArgument(value).value, value)
  {
    if value.Num? && value.number.Integer? {
      PrintedIntegerReadsBack(value.number.whole);
    }
  }

  // ----- The tokens of each mapping

  lemma {:induction false} FlaggedAt(flag: string, words: seq<string>)
    ensures |Flagged(flag, words)| == 2 * |words|
    ensures forall i :: 0 <= i < |words| ==> Flagged(flag, words)[2 * i] == flag && Flagged(flag, words)[2 * i + 1] == words[i]
  {
    if words != [] {
      FlaggedAt(flag, words[1..]);
      var rest := Flagged(flag, words[1..]);
      assert Flagged(flag, words) == [flag, words[0]] + rest;
      hide Flagged;
      forall i | 0 < i < |words|
        ensures Flagged(flag, words)[2 * i] == flag && Flagged(flag, words)[2 * i + 1] == words[i]
      {
        assert rest[2 * (i - 1)] == flag && rest[2 * (i - 1) + 1] == words[1..][i - 1];
      }
    }
  }

  lemma {:induction false} TextsWhenAllStrings(values: seq<Json.Value>)
    ensures Texts(values).Some? <==> forall i :: 0 <= i < |values| ==> values[i].Str?
  {
    if values != [] {
      TextsWhenAllStrings(values[1..]);
      assert forall i :: 0 < i < |values| ==> values[i] == values[1..][i - 1];
      if forall i :: 0 <= i < |values| ==> values[i].Str? {
        assert forall i :: 0 <= i < |values[1..]| ==> values[1..][i] == values[i + 1];
      }
    }
  }

  /** A scalar is one token; behind a flag it is two, the flag first, or none if empty and to be left out. */
  lemma ScalarTokens(mapping: Mapping, value: Json.Value, encode: Encoder)
    requires mapping.Positional? || mapping.Flag?
    ensures var tokens := Lowered(mapping, value, encode);
      if mapping.Flag? && mapping.omitIfEmpty && value == Json.Str("") then tokens == Some([])
      else
        && (tokens.Some? <==> value.Str? || value.Num? || value.Bool?)
        && (tokens.Some? && mapping.Positional? ==> |tokens.value| == 1 && Shows(tokens.value[0], value))
        && (tokens.Some? && mapping.Flag? ==>
              |tokens.value| == 2 && tokens.value[0] == mapping.flag && Shows(tokens.value[1], value))
  {
    hide Shows;
    ScalarShows(value);
  }

  /** A boolean flag stands in argv exactly when the value is true. */
  lemma BooleanFlagTokens(mapping: Mapping, value: Json.Value, encode: Encoder)
    requires mapping.BoolFlag?
    ensures Lowered(mapping, value, encode) ==
      if value == Json.Bool(true) then Some([mapping.flag])
      else if value == Json.Bool(false) then Some([])
      else None
  {
  }

  /** An array of strings is lowered item by item in order, each behind its own flag if there is one. */
  lemma ArrayTokens(mapping: Mapping, value: Json.Value, encode: Encoder)
    requires mapping.RepeatedFlag? || mapping.Passthrough?
    ensures var tokens := Lowered(mapping, value, encode);
      && (tokens.Some? <==> value.Array? && forall i :: 0 <= i < |value.items| ==> value.items[i].Str?)
      && (tokens.Some? && mapping.Passthrough? ==>
            && |tokens.value| == |value.items|
            && forall i :: 0 <= i < |value.items| ==> tokens.value[i] == value.items[i].text)
      && (tokens.Some? && mapping.RepeatedFlag? ==>
            && |tokens.value| == 2 * |value.items|
            && forall i :: 0 <= i < |value.items| ==>
                 tokens.value[2 * i] == mapping.flag && tokens.value[2 * i + 1] == value.items[i].text)
  {
    if value.Array? {
      TextsWhenAllStrings(value.items);
      if Texts(value.items).Some? {
        TextsAreItems(value.items);
        if mapping.RepeatedFlag? {
          FlaggedAt(mapping.flag, Texts(value.items).value);
        }
      }
    }
  }

  /** Documents follow their flag as encoded, literals are written as they are, controls never reach argv. */
  lemma OtherTokens(mapping: Mapping, value: Json.Value, encode: Encoder)
    requires mapping.JsonFlag? || mapping.Literal? || mapping.RuntimeControl? || mapping.SplitPositional?
    ensures Lowered(mapping, value, encode) == match mapping
      case JsonFlag(flag, _) => (match encode(value) case None => None case Some(text) => Some([flag, text]))
      case Literal(arguments) => Some(arguments)
      case SplitPositional(_, most, longest) =>
        if value.Str? && InertWords.Split(value.text).Some?
           && |InertWords.Split(value.text).value| <= most
           && (forall i :: 0 <= i < |InertWords.Split(value.text).value| ==>
                 ByteLen(InertWords.Split(value.text).value[i]) <= longest)
        then InertWords.Split(value.text) else None
      case _ => None
  {
  }

  /** A refused value is too large exactly if it splits into words that are too many or too long. */
  lemma RefusalNamesCause(mapping: Mapping, value: Json.Value, encode: Encoder)
    requires Lowered(mapping, value, encode).None?
    ensures LoweringRefusal(mapping, value) ==
      if mapping.SplitPositional? && value.Str? && InertWords.Split(value.text).Some? then InvocationTooLarge
      else InvalidParameter
    ensures LoweringRefusal(mapping, value) == InvocationTooLarge ==>
      || |InertWords.Split(value.text).value| > mapping.maxItems
      || exists i :: 0 <= i < |InertWords.Split(value.text).value|
           && ByteLen(InertWords.Split(value.text).value[i]) > mapping.maxItemBytes
  {
    hide ByteLen, InertWords.Split;
    if LoweringRefusal(mapping, value) == InvocationTooLarge {
      var words := InertWords.Split(value.text).value;
      if |words| <= mapping.maxItems {
        var word :| word in words && ByteLen(word) > mapping.maxItemBytes;
        var i :| 0 <= i < |words| && words[i] == word;
      }
    }
  }

  /** An invalid value is refused as such before it is lowered; an unknown parameter is an invalid input. */
  lemma InvocationRefusalNamesCause(action: Action, input: map<string, Json.Value>, encode: Encoder, mapping: Mapping)
    requires Contribution(action, input, encode, mapping).None?
    ensures match MappingRefusal(action, input, encode, mapping)
      case InvalidInput => mapping.parameter !in action.parameters
      case InvocationTooLarge =>
        mapping.parameter in action.parameters && mapping.SplitPositional?
        && ValueOf(action, input, mapping.parameter).Some?
        && RuntimeValid(RuntimeParameter(action, mapping.parameter), ValueOf(action, input, mapping.parameter).value, encode)
      case InvalidParameter =>
        mapping.parameter in action.parameters && ValueOf(action, input, mapping.parameter).Some?
  {
    hide RuntimeValid, Lowered, DefaultValue, Compiled;
  }

  // ----- Which values reach argv

  /**
   An accepted mapping fits its parameter: every value that passes run-time validation is lowered. Only
   splitting can still refuse, since it looks at the words themselves.
   */
  lemma AcceptedValuesLower(mapping: Mapping, parameter: Parameter, maximum: nat, value: Json.Value, encode: Encoder)
    requires !mapping.Literal? && !mapping.RuntimeControl? && !mapping.SplitPositional?
    requires CompileParameter(parameter, maximum).Some?
    requires MappingProjection(mapping, CompileParameter(parameter, maximum).value).Some?
    requires RuntimeValid(Compiled(parameter, maximum), value, encode)
    ensures Lowered(mapping, value, encode).Some?
  {
    hide ByteLen, HasControl, StringArrayBounds, Json.Nodes, Json.Depth, Texts;
    if value.Array? {
      TextsWhenAllStrings(value.items);
    }
  }

  /** A given value is used and nothing else; an omitted one stands for its default, if there is one. */
  lemma GivenValueIsUsed(action: Action, input: map<string, Json.Value>, encode: Encoder, mapping: Mapping)
    requires !mapping.Literal? && mapping.parameter in action.parameters
    ensures var name := mapping.parameter;
      var parameter := RuntimeParameter(action, name);
      && (name in input ==>
            Contribution(action, input, encode, mapping)
              == if !RuntimeValid(parameter, input[name], encode) then None
                 else if mapping.RuntimeControl? then Some([]) else Lowered(mapping, input[name], encode))
      && (name !in input && DefaultValue(parameter).None? ==> Contribution(action, input, encode, mapping) == Some([]))
  {
    hide RuntimeValid, Lowered, DefaultValue, Compiled;
  }

  /** Writing a default out in the input gives the same arguments as leaving it out. */
  lemma {:induction false} OmittedMeansDefault(
    action: Action, input: map<string, Json.Value>, encode: Encoder, name: string, n: nat)
    requires name in action.parameters && name !in input
    requires DefaultValue(RuntimeParameter(action, name)).Some? && n <= |action.mappings|
    ensures var written := input[name := DefaultValue(RuntimeParameter(action, name)).value];
      Contributions(action, input, encode, n) == Contributions(action, written, encode, n)
  {
    hide RuntimeValid, Lowered, DefaultValue, Compiled;
    if n > 0 {
      OmittedMeansDefault(action, input, encode, name, n - 1);
    }
  }

  // ----- The projection is needed

  /** A parameter that takes free text uses its whole projection for its longest text. */
  lemma TextUsesProjection(mapping: Mapping, parameter: Parameter, maximum: nat, encode: Encoder)
    returns (value: Json.Value)
    requires mapping.Positional? || mapping.Flag?
    requires mapping.FlagAccepted() && maximum <= MAX_TYPED_RUNTIME_CONTROL_STRING_BYTES
    requires parameter.WorkspacePathParameter? || (parameter.StringParameter? && parameter.enumTexts == [])
    requires CompileParameter(parameter, maximum).Some?
    requires mapping.Flag? && mapping.omitIfEmpty ==> CompileParameter(parameter, maximum).value != Scalar(0)
    ensures RuntimeValid(Compiled(parameter, maximum), value, encode)
    ensures var cost := MappingProjection(mapping, CompileParameter(parameter, maximum).value);
      var added := Lowered(mapping, value, encode);
      cost.Some? && added.Some? && |added.value| == cost.value.items && TotalByteLen(added.value) == cost.value.bytes
  {
    hide HasControl, ByteLen;
    var text := PlainText(CompileParameter(parameter, maximum).value.maxBytes);
    value := Json.Str(text);
    PairCost(text, "");
    if mapping.Flag? {
      PairCost(mapping.flag, text);
    }
  }

  /** A boolean uses its whole projection: `false` behind a flag, the flag itself for `true`. */
  lemma BooleanUsesProjection(mapping: Mapping, parameter: Parameter, maximum: nat, encode: Encoder)
    returns (value: Json.Value)
    requires mapping.BoolFlag? || mapping.Flag?
    requires mapping.FlagAccepted() && parameter.BooleanParameter?
    ensures RuntimeValid(Compiled(parameter, maximum), value, encode)
    ensures var cost := MappingProjection(mapping, Boolean);
      var added := Lowered(mapping, value, encode);
      cost.Some? && added.Some? && |added.value| == cost.value.items && TotalByteLen(added.value) == cost.value.bytes
  {
    ByteLenOfAscii("false");
    hide ByteLen;
    value := Json.Bool(mapping.BoolFlag?);
    PairCost(mapping.flag, "false");
  }

  function Copies(n: nat, text: string): (words: seq<string>)
    ensures |words| == n && forall i :: 0 <= i < n ==> words[i] == text
  {
    seq(n, i => text)
  }

  function AsStrings(words: seq<string>): (values: seq<Json.Value>)
    ensures |values| == |words| && forall i :: 0 <= i < |words| ==> values[i] == Json.Str(words[i])
  {
    seq(|words|, i requires 0 <= i < |words| => Json.Str(words[i]))
  }

  lemma CopiesAsTexts(words: seq<string>)
    ensures Texts(AsStrings(words)) == Some(words)
  {
    TextsWhenAllStrings(AsStrings(words));
    TextsAreItems(AsStrings(words));
    assert Texts(AsStrings(words)).value == words;
  }

  lemma {:induction false} CopiesCost(n: nat, text: string)
    ensures TotalByteLen(Copies(n, text)) == n * ByteLen(text)
  {
    if n > 0 {
      CopiesCost(n - 1, text);
      assert Copies(n, text)[1..] == Copies(n - 1, text);
      assert n * ByteLen(text) == ByteLen(text) + (n - 1) * ByteLen(text);
    }
  }

  lemma FullArrayIsValid(parameter: Parameter, maximum: nat, encode: Encoder, text: string)
    requires parameter.StringArrayParameter? && CompileParameter(parameter, maximum).Some?
    requires var b := StringArrayBounds(parameter.minItems, parameter.maxItems, parameter.maxItemBytes);
      ByteLen(text) == b.itemBytes && !HasControl(text)
    ensures var b := StringArrayBounds(parameter.minItems, parameter.maxItems, parameter.maxItemBytes);
      && CompileParameter(parameter, maximum) == Some(StringArray(b.maximum, b.itemBytes))
      && BoundsAccepted(b)
      && RuntimeValid(Compiled(parameter, maximum), Json.Array(AsStrings(Copies(b.maximum, text))), encode)
  {
    hide HasControl, ByteLen, StringArrayBounds;
  }

  /** A string array uses its whole projection when it has as many items as allowed, each as long as allowed. */
  lemma ArrayUsesProjection(mapping: Mapping, parameter: Parameter, maximum: nat, encode: Encoder)
    returns (value: Json.Value)
    requires mapping.RepeatedFlag? || mapping.Passthrough?
    requires mapping.FlagAccepted() && parameter.StringArrayParameter?
    requires CompileParameter(parameter, maximum).Some?
    ensures RuntimeValid(Compiled(parameter, maximum), value, encode)
    ensures var cost := MappingProjection(mapping, CompileParameter(parameter, maximum).value);
      var added := Lowered(mapping, value, encode);
      cost.Some? && added.Some? && |added.value| == cost.value.items && TotalByteLen(added.value) == cost.value.bytes
  {
    hide HasControl, ByteLen, StringArrayBounds, Texts, TotalByteLen, Flagged, RuntimeValid, CompileParameter, Compiled;
    var b := StringArrayBounds(parameter.minItems, parameter.maxItems, parameter.maxItemBytes);
    var text := PlainText(b.itemBytes);
    var words := Copies(b.maximum, text);
    value := Json.Array(AsStrings(words));
    FullArrayIsValid(parameter, maximum, encode, text);
    CopiesAsTexts(words);
    CopiesCost(b.maximum, text);
    ArrayCost(b.maximum, b.maximum, b.itemBytes, mapping.FlagBytes());
    if mapping.RepeatedFlag? {
      FlaggedCost(mapping.flag, words);
      assert b.maximum * (mapping.FlagBytes() + b.itemBytes) == b.maximum * mapping.FlagBytes() + b.maximum * b.itemBytes;
    }
  }

  /** A document that is encoded to its limit uses its whole projection. */
  lemma DocumentUsesProjection(mapping: Mapping, parameter: Parameter, maximum: nat, value: Json.Value, encode: Encoder)
    requires mapping.JsonFlag? && mapping.FlagAccepted() && maximum <= MAX_TYPED_RUNTIME_CONTROL_STRING_BYTES
    requires parameter.JsonObjectParameter? || parameter.JsonArrayParameter?
    requires CompileParameter(parameter, maximum).Some?
    requires RuntimeValid(Compiled(parameter, maximum), value, encode)
    requires ByteLen(encode(value).value)
          == Or(if parameter.JsonObjectParameter? then parameter.maxObjectBytes else parameter.maxArrayBytes, maximum)
    ensures var cost := MappingProjection(mapping, CompileParameter(parameter, maximum).value);
      var added := Lowered(mapping, value, encode);
      cost.Some? && added.Some? && |added.value| == cost.value.items && TotalByteLen(added.value) == cost.value.bytes
  {
    hide ByteLen, Json.Nodes, Json.Depth;
    PairCost(mapping.flag, encode(value).value);
  }

  /** Controls cost nothing; splitting costs its declared items, and no more bytes than its source can have. */
  lemma OtherProjections(mapping: Mapping, shape: Shape)
    ensures mapping.RuntimeControl? ==> MappingProjection(mapping, shape) == Some(Cost(0, 0))
    ensures mapping.SplitPositional? && shape.Scalar? && mapping.maxItems > 0 && 0 < mapping.maxItemBytes <= 4096 ==>
      MappingProjection(mapping, shape).Some?
      && MappingProjection(mapping, shape).value.items == mapping.maxItems
      && MappingProjection(mapping, shape).value.bytes <= shape.maxBytes
      && MappingProjection(mapping, shape).value.bytes <= mapping.maxItems * mapping.maxItemBytes
      && (MappingProjection(mapping, shape).value.bytes
            in {shape.maxBytes, mapping.maxItems * mapping.maxItemBytes, U64_MAX})
  {
  }

  /** A set of mappings is accepted exactly if every parameter has one mapping of its own and the costs fit. */
  lemma AcceptedExactlyWhen(mappings: seq<Mapping>, shapes: map<string, Shape>, limits: Limits)
    ensures MappingsAccepted(mappings, shapes, limits) <==>
      && |mappings| <= 512
      && (forall name :: name in shapes ==> exists i :: 0 <= i < |mappings| && !mappings[i].Literal? && mappings[i].parameter == name)
      && (forall i, j :: 0 <= i < j < |mappings| && !mappings[i].Literal? && !mappings[j].Literal? ==>
            mappings[i].parameter != mappings[j].parameter)
      && (forall i :: 0 <= i < |mappings| ==> MappingCost(mappings[i], shapes).Some?)
      && ProjectedTotal(mappings, shapes, |mappings|).items <= limits.maxItems
      && ProjectedTotal(mappings, shapes, |mappings|).bytes <= limits.maxCombinedBytes
  {
    hide MappingProjection, ProjectedTotal, FixedArgumentsAccepted;
    if forall i :: 0 <= i < |mappings| ==> MappingCost(mappings[i], shapes).Some? {
      assert MappedParameters(mappings, |mappings|) <= shapes.Keys;
    }
    if MappedParameters(mappings, |mappings|) == shapes.Keys {
      forall name | name in shapes
        ensures exists i :: 0 <= i < |mappings| && !mappings[i].Literal? && mappings[i].parameter == name
      {
        assert name in MappedParameters(mappings, |mappings|);
      }
    }
  }

  // ----- What an accepted action may write

  /** The flags a package may use. */
  lemma FlagAcceptedExactlyWhen(mapping: Mapping)
    requires mapping.Flag? || mapping.BoolFlag? || mapping.RepeatedFlag? || mapping.JsonFlag?
    ensures mapping.FlagAccepted() <==>
      && |mapping.flag| > 1 && mapping.flag[0] == '-' && mapping.flag != "--"
      && ByteLen(mapping.flag) <= 4096 && Printable(mapping.flag)
  {
    hide ByteLen;
    if mapping.flag != "" {
      assert mapping.flag == [mapping.flag[0]] + mapping.flag[1..];
    }
  }

  /** Flags of an accepted action look like flags, and its literal tokens are nonempty and printable. */
  lemma AcceptedTokensAreSafe(action: Action, i: nat)
    requires ActionCompiles(action) && i < |action.mappings|
    ensures match action.mappings[i]
      case Literal(arguments) =>
        forall k :: 0 <= k < |arguments| ==>
          arguments[k] != "" && ByteLen(arguments[k]) <= 4096 && Printable(arguments[k])
      case Positional(_) => true
      case Passthrough(_) => true
      case SplitPositional(_, _, _) => true
      case RuntimeControl(_) => true
      case _ =>
        var flag := action.mappings[i].flag;
        |flag| > 1 && flag[0] == '-' && flag != "--" && ByteLen(flag) <= 4096 && Printable(flag)
  {
    var mapping := action.mappings[i];
    assert MappingCost(mapping, ShapesOf(action)).Some?;
    hide ByteLen, MappingProjection, CompileParameter;
    if mapping.Literal? {
      forall k | 0 <= k < |mapping.arguments|
        ensures mapping.arguments[k] in mapping.arguments
      {
      }
    } else if mapping.Flag? || mapping.BoolFlag? || mapping.RepeatedFlag? || mapping.JsonFlag? {
      assert mapping.FlagAccepted();
      assert mapping.flag == [mapping.flag[0]] + mapping.flag[1..];
    }
  }
}
