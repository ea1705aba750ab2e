/**
 Run-time validation means what was declared: the declared limits spelled out for every kind of value, and
 agreement between what compiles as a default and what passes at run time.
 */
module RuntimeAgreement {
  import opened Bytes
  import opened Text
  import opened ActionParameters
  import Json

  // ----- Limits as declared

  /** Text passes exactly within its declared lengths, without control characters, and from its enumeration. */
  lemma TextPassesExactlyWhen(parameter: Parameter, maximum: nat, value: Json.Value, encode: Encoder)
    requires parameter.StringParameter? || parameter.WorkspacePathParameter?
    ensures RuntimeValid(Compiled(parameter, maximum), value, encode) <==>
      && value.Str? && Printable(value.text)
      && match parameter
         case WorkspacePathParameter(maxLength) =>
           0 < |value.text| && ByteLen(value.text) <= if maxLength.Some? then maxLength.value else maximum
         case StringParameter(_, default, enums, minLength, maxLength) =>
           var most := if maxLength.Some? then maxLength.value else maximum;
           && (minLength.Some? ==> minLength.value <= |value.text|)
           && |value.text| <= most && ByteLen(value.text) <= most
           && (enums != [] && default != Some(value.text) ==>
                 exists i :: 0 <= i < |enums| && enums[i] == value.text)
  {
    hide ByteLen;
  }

  /** Numbers pass exactly within their declared bounds, integers also from their enumeration. */
  lemma NumberPassesExactlyWhen(parameter: Parameter, maximum: nat, value: Json.Value, encode: Encoder)
    requires parameter.IntegerParameter? || parameter.NumberParameter?
    ensures RuntimeValid(Compiled(parameter, maximum), value, encode) <==>
      && value.Num?
      && match parameter
         case IntegerParameter(_, enums, minimum, maximum) =>
           && value.number.Integer? && value.number.whole < 0x8000_0000_0000_0000
           && (minimum.Some? ==> minimum.value <= value.number.whole)
           && (maximum.Some? ==> value.number.whole <= maximum.value)
           && (enums != [] ==> exists i :: 0 <= i < |enums| && enums[i] == value.number.whole)
         case NumberParameter(_, least, greatest) =>
           var x := match value.number case Integer(n) => n as real case Float(r, _) => r;
           (least.Some? ==> least.value <= x) && (greatest.Some? ==> x <= greatest.value)
  {
  }

  /** Arrays of strings pass exactly within the resolved item count, each item printable and within its bytes. */
  lemma ItemsPassExactlyWhen(parameter: Parameter, maximum: nat, value: Json.Value, encode: Encoder)
    requires parameter.StringArrayParameter? && CompileParameter(parameter, maximum).Some?
    ensures var b := StringArrayBounds(parameter.minItems, parameter.maxItems, parameter.maxItemBytes);
      && b.maximum <= 128 && 0 < b.itemBytes <= 4096 && b.maximum * b.itemBytes <= 65536
      && (RuntimeValid(Compiled(parameter, maximum), value, encode) <==>
            && value.Array? && b.minimum <= |value.items| <= b.maximum
            && forall i :: 0 <= i < |value.items| ==>
                 value.items[i].Str? && ByteLen(value.items[i].text) <= b.itemBytes && Printable(value.items[i].text))
  {
    hide ByteLen, StringArrayBounds;
    if value.Array? {
      forall i | 0 <= i < |value.items|
        ensures value.items[i].Str? ==> (HasControl(value.items[i].text) <==> !Printable(value.items[i].text))
      {
      }
    }
  }

  /** Documents pass exactly within nodes, depth and encoded bytes, arrays also within their element count. */
  lemma DocumentPassesExactlyWhen(parameter: Parameter, maximum: nat, value: Json.Value, encode: Encoder)
    requires parameter.JsonObjectParameter? || parameter.JsonArrayParameter?
    requires CompileParameter(parameter, maximum).Some?
    ensures var bytes := Or(if parameter.JsonObjectParameter? then parameter.maxObjectBytes else parameter.maxArrayBytes, maximum);
      var depth, nodes := Or(parameter.maxDepth, 16), Or(parameter.maxNodes, 2048);
      && 0 < bytes <= maximum && 0 < depth <= 16 && 0 < nodes <= 2048
      && (RuntimeValid(Compiled(parameter, maximum), value, encode) <==>
            && (if parameter.JsonObjectParameter? then value.Object? else value.Array? && |value.items| <= Or(parameter.maxElements, 128))
            && Json.Nodes(value) <= nodes && Json.Depth(value) <= depth
            && encode(value).Some? && ByteLen(encode(value).value) <= bytes)
  {
    hide ByteLen, Json.Nodes, Json.Depth;
  }

  lemma BooleanPassesExactlyWhen(parameter: Parameter, maximum: nat, value: Json.Value, encode: Encoder)
    requires parameter.BooleanParameter?
    ensures RuntimeValid(Compiled(parameter, maximum), value, encode) <==> value.Bool?
  {
  }

  predicate InRange(n: int, least: Option<I64>, most: Option<I64>) {
    (least.Some? ==> least.value <= n) && (most.Some? ==> n <= most.value)
  }

  /** Scalars compile exactly within their limits, with enumeration and default inside them. */
  lemma ScalarCompilesExactlyWhen(parameter: Parameter, maximum: nat)
    requires parameter.StringParameter? || parameter.WorkspacePathParameter? || parameter.IntegerParameter?
    ensures CompileParameter(parameter, maximum) ==
      match parameter
      case WorkspacePathParameter(maxLength) =>
        var most := if maxLength.Some? then maxLength.value else maximum;
        if 0 < most <= maximum then Some(Scalar(most)) else None
      case StringParameter(required, default, enums, minLength, maxLength) =>
        var least, most := Or(minLength, 0), if maxLength.Some? then maxLength.value else maximum;
        if && least <= most <= maximum && |enums| <= 256 && TotalByteLen(enums) <= 65536
           && (forall i :: 0 <= i < |enums| ==>
                 least <= |enums[i]| <= most && ByteLen(enums[i]) <= most && Printable(enums[i]))
           && (default.Some? ==>
                 && least <= |default.value| <= most && ByteLen(default.value) <= most && Printable(default.value)
                 && (enums == [] || default.value in enums || (!required && default.value == "")))
        then Some(Scalar(most)) else None
      case IntegerParameter(default, enums, least, most) =>
        if && |enums| <= 256 && (least.Some? && most.Some? ==> least.value <= most.value)
           && (forall i :: 0 <= i < |enums| ==> InRange(enums[i], least, most))
           && (default.Some? ==> InRange(default.value, least, most) && (enums == [] || default.value in enums))
        then Some(Scalar(32)) else None
  {
    hide ByteLen, TotalByteLen;
    if parameter.StringParameter? {
      forall i | 0 <= i < |parameter.enumTexts|
        ensures parameter.enumTexts[i] in parameter.enumTexts
        ensures HasControl(parameter.enumTexts[i]) <==> !Printable(parameter.enumTexts[i])
      {
      }
      assert parameter.defaultText.Some? ==>
        (HasControl(parameter.defaultText.value) <==> !Printable(parameter.defaultText.value));
      hide HasControl, Printable;
    } else if parameter.IntegerParameter? {
      assert forall i :: 0 <= i < |parameter.enumIntegers| ==> parameter.enumIntegers[i] in parameter.enumIntegers;
    }
  }

  /** The other kinds compile exactly within their own limits. */
  lemma OtherCompilesExactlyWhen(parameter: Parameter, maximum: nat)
    requires !parameter.StringParameter? && !parameter.WorkspacePathParameter? && !parameter.IntegerParameter?
    ensures CompileParameter(parameter, maximum) ==
      match parameter
      case NumberParameter(default, least, most) =>
        if && (least.Some? && most.Some? ==> least.value <= most.value)
           && (default.Some? ==>
                 (least.Some? ==> least.value <= NumberValue(default.value)) && (most.Some? ==> NumberValue(default.value) <= most.value))
        then Some(Scalar(64)) else None
      case BooleanParameter(_) => Some(Boolean)
      case StringArrayParameter(minItems, maxItems, maxItemBytes) =>
        var b := StringArrayBounds(minItems, maxItems, maxItemBytes);
        if b.minimum <= b.maximum <= 128 && 0 < b.itemBytes <= 4096 && b.maximum * b.itemBytes <= 65536
        then Some(StringArray(b.maximum, b.itemBytes)) else None
      case JsonObjectParameter(maxBytes, maxDepth, maxNodes) =>
        if 0 < Or(maxBytes, maximum) <= maximum && 0 < Or(maxDepth, 16) <= 16 && 0 < Or(maxNodes, 2048) <= 2048
        then Some(JsonObject(Or(maxBytes, maximum))) else None
      case JsonArrayParameter(maxBytes, maxDepth, maxNodes, maxElements) =>
        if && 0 < Or(maxBytes, maximum) <= maximum && 0 < Or(maxDepth, 16) <= 16 && 0 < Or(maxNodes, 2048) <= 2048
           && Or(maxElements, 128) <= 128
        then Some(JsonArray(Or(maxBytes, maximum))) else None
  {
    hide StringArrayBounds;
  }

  // ----- Defaults and run-time values

  /** An integer passes at run time exactly if the same declaration would compile with it as the default. */
  lemma IntegersAgree(parameter: Parameter, maximum: nat, n: I64, encode: Encoder)
    requires parameter.IntegerParameter? && CompileParameter(parameter, maximum).Some?
    ensures RuntimeValid(Compiled(parameter, maximum), Json.Num(Json.Integer(n)), encode)
      <==> CompileParameter(parameter.(defaultInteger := Some(n)), maximum).Some?
  {
  }

  /** The same for numbers. */
  lemma NumbersAgree(parameter: Parameter, maximum: nat, number: Json.Number, encode: Encoder)
    requires parameter.NumberParameter? && CompileParameter(parameter, maximum).Some?
    ensures RuntimeValid(Compiled(parameter, maximum), Json.Num(number), encode)
      <==> CompileParameter(parameter.(defaultNumber := Some(number)), maximum).Some?
  {
  }

  /**
   The same for texts, with one exception on each side: an optional parameter may default to the empty
   text outside its enumeration, and a default that compiled that way still passes.
   */
  lemma TextsAgree(parameter: Parameter, maximum: nat, text: string, encode: Encoder)
    requires parameter.StringParameter? && CompileParameter(parameter, maximum).Some?
    requires !(text == "" && !parameter.required && parameter.enumTexts != [] && "" !in parameter.enumTexts)
    ensures RuntimeValid(Compiled(parameter, maximum), Json.Str(text), encode)
      <==> CompileParameter(parameter.(defaultText := Some(text)), maximum).Some?
  {
    hide ByteLen, TotalByteLen, HasControl;
  }

  /** The exception: the empty text passes at run time exactly where it really is the default. */
  lemma EmptyTextIsTheException(parameter: Parameter, maximum: nat, encode: Encoder)
    requires parameter.StringParameter? && CompileParameter(parameter, maximum).Some?
    requires !parameter.required && parameter.enumTexts != [] && "" !in parameter.enumTexts
    ensures RuntimeValid(Compiled(parameter, maximum), Json.Str(""), encode) <==> parameter.defaultText == Some("")
    ensures CompileParameter(parameter.(defaultText := Some("")), maximum).Some? <==> Or(parameter.minLength, 0) == 0
  {
    assert ByteLen("") == 0;
    hide TotalByteLen;
  }

  /** Every value of an accepted enumeration passes at run time. */
  lemma EnumerationPasses(parameter: Parameter, maximum: nat, encode: Encoder)
    requires CompileParameter(parameter, maximum).Some?
    ensures parameter.StringParameter? ==>
      && |parameter.enumTexts| <= 256
      && forall text :: text in parameter.enumTexts ==> RuntimeValid(Compiled(parameter, maximum), Json.Str(text), encode)
    ensures parameter.IntegerParameter? ==>
      && |parameter.enumIntegers| <= 256
      && forall n :: n in parameter.enumIntegers ==>
           RuntimeValid(Compiled(parameter, maximum), Json.Num(Json.Integer(n)), encode)
  {
    hide ByteLen, TotalByteLen, HasControl;
  }

  // ----- Declarations can be met

  /** Every declaration of a scalar or a string array that compiles is met by some value. */
  lemma DeclarationIsSatisfiable(parameter: Parameter, maximum: nat, encode: Encoder) returns (value: Json.Value)
    requires CompileParameter(parameter, maximum).Some?
    requires !parameter.JsonObjectParameter? && !parameter.JsonArrayParameter?
    ensures RuntimeValid(Compiled(parameter, maximum), value, encode)
  {
    hide ByteLen, TotalByteLen, HasControl, StringArrayBounds;
    match parameter {
      case StringParameter(_, _, enums, minLength, _) =>
        value := Json.Str(if enums != [] then enums[0] else PlainText(Or(minLength, 0)));
      case WorkspacePathParameter(_) =>
        value := Json.Str(PlainText(1));
      case IntegerParameter(_, enums, least, greatest) =>
        value := Json.Num(Json.Integer(
          if enums != [] then enums[0] else if least.Some? then least.value else if greatest.Some? then greatest.value else 0));
      case NumberParameter(_, least, greatest) =>
        value := Json.Num(Json.Float(if least.Some? then least.value else if greatest.Some? then greatest.value else 0.0, "0"));
      case BooleanParameter(_) =>
        value := Json.Bool(true);
      case StringArrayParameter(minItems, maxItems, maxItemBytes) =>
        var b := StringArrayBounds(minItems, maxItems, maxItemBytes);
        value := Json.Array(seq(b.minimum, i => Json.Str(PlainText(0))));
    }
  }
}
