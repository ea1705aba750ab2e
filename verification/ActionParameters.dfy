/** Typed action parameters: what compilation accepts and what a run-time value must satisfy. */
module ActionParameters {
  import opened Bytes
  import opened Text
  import Json

  const MAX_FIXED_ARGUMENTS: nat := 128
  const MAX_ARGUMENT_BYTES: nat := 4 * 1024
  const MAX_FIXED_ARGUMENT_BYTES: nat := 64 * 1024
  const MAX_TYPED_ENUM_VALUES: nat := 256
  const MAX_TYPED_JSON_DEPTH: nat := 16
  const MAX_TYPED_JSON_NODES: nat := 2048
  const MAX_TYPED_RUNTIME_CONTROL_STRING_BYTES: nat := 64 * 1024
  const U64_MAX: nat := 0xFFFF_FFFF_FFFF_FFFF

  type I64 = n: int | -0x8000_0000_0000_0000 <= n < 0x8000_0000_0000_0000

  /** A JSON value to its compact text; `None` stands for a serializer error. */
  type Encoder = Json.Value -> Option<string>

  datatype Parameter =
    | StringParameter(required: bool, defaultText: Option<string>, enumTexts: seq<string>,
                      minLength: Option<nat>, maxLength: Option<nat>)
    | WorkspacePathParameter(maxPathLength: Option<nat>)
    | IntegerParameter(defaultInteger: Option<I64>, enumIntegers: seq<I64>,
                       minimum: Option<I64>, maximum: Option<I64>)
    | NumberParameter(defaultNumber: Option<Json.Number>, least: Option<real>, greatest: Option<real>)
    | BooleanParameter(defaultBit: Option<bool>)
    | StringArrayParameter(minItems: Option<nat>, maxItems: Option<nat>, maxItemBytes: Option<nat>)
    | JsonObjectParameter(maxObjectBytes: Option<nat>, maxDepth: Option<nat>, maxNodes: Option<nat>)
    | JsonArrayParameter(maxArrayBytes: Option<nat>, maxDepth: Option<nat>, maxNodes: Option<nat>,
                         maxElements: Option<nat>)

  datatype Shape =
    | Scalar(maxBytes: nat)
    | Boolean
    | StringArray(items: nat, itemBytes: nat)
    | JsonObject(maxBytes: nat)
    | JsonArray(maxBytes: nat)

  function Or(option: Option<nat>, default: nat): nat {
    if option.Some? then option.value else default
  }

  function Min(a: nat, b: nat): nat {
    if a < b then a else b
  }

  // ----- String array bounds

  datatype Bounds = Bounds(minimum: nat, maximum: nat, itemBytes: nat)

  function StringArrayBounds(minItems: Option<nat>, maxItems: Option<nat>, maxItemBytes: Option<nat>): Bounds {
    var combined := MAX_FIXED_ARGUMENT_BYTES;
    var perItem := if maxItemBytes.Some? && maxItemBytes.value > 0 then maxItemBytes.value else 1;
    var maximum := Or(maxItems, Min(MAX_FIXED_ARGUMENTS, combined / perItem));
    var itemBytes := Or(maxItemBytes, Min(MAX_ARGUMENT_BYTES, combined / (if maximum > 1 then maximum else 1)));
    Bounds(Or(minItems, 0), maximum, itemBytes)
  }

  lemma QuotientTimes(total: nat, divisor: nat, factor: nat)
    requires divisor > 0 && factor <= total / divisor
    ensures factor * divisor <= total
  {
    assert factor * divisor <= (total / divisor) * divisor;
  }

  /** Explicit bounds are kept; a pair with an omitted bound fits the combined argument budget. */
  lemma DerivedBoundsFit(minItems: Option<nat>, maxItems: Option<nat>, maxItemBytes: Option<nat>)
    ensures var b := StringArrayBounds(minItems, maxItems, maxItemBytes);
      && (minItems.Some? ==> b.minimum == minItems.value)
      && (maxItems.Some? ==> b.maximum == maxItems.value)
      && (maxItemBytes.Some? ==> b.itemBytes == maxItemBytes.value)
      && (maxItems.None? ==> b.maximum <= MAX_FIXED_ARGUMENTS)
      && (maxItemBytes.None? ==> b.itemBytes <= MAX_ARGUMENT_BYTES)
      && (maxItems.None? || maxItemBytes.None? ==> b.maximum * b.itemBytes <= MAX_FIXED_ARGUMENT_BYTES)
  {
    var b := StringArrayBounds(minItems, maxItems, maxItemBytes);
    if maxItemBytes.None? {
      if b.maximum > 0 {
        QuotientTimes(MAX_FIXED_ARGUMENT_BYTES, b.maximum, b.itemBytes);
        assert b.maximum * b.itemBytes == b.itemBytes * b.maximum;
      }
    } else if maxItems.None? && maxItemBytes.value > 0 {
      QuotientTimes(MAX_FIXED_ARGUMENT_BYTES, maxItemBytes.value, b.maximum);
    }
  }

  /** A derived bound is the largest that fits: one more would exceed its own ceiling or the combined budget. */
  lemma DerivedBoundsAreLargest(minItems: Option<nat>, maxItems: Option<nat>, maxItemBytes: Option<nat>)
    ensures var b := StringArrayBounds(minItems, maxItems, maxItemBytes);
      && (minItems.None? ==> b.minimum == 0)
      && (maxItems.None? ==>
            b.maximum == 128 || (maxItemBytes.Some? && (b.maximum + 1) * maxItemBytes.value > 65536))
      && (maxItemBytes.None? ==>
            b.itemBytes == 4096 || (b.itemBytes + 1) * b.maximum > 65536)
  {
    var b := StringArrayBounds(minItems, maxItems, maxItemBytes);
    if maxItems.None? && maxItemBytes.Some? && maxItemBytes.value > 0 {
      NextMultiple(65536, maxItemBytes.value);
    }
    if maxItemBytes.None? && b.maximum > 0 {
      NextMultiple(65536, b.maximum);
    }
  }

  lemma NextMultiple(total: nat, divisor: nat)
    requires divisor > 0
    ensures (total / divisor + 1) * divisor > total
  {
    assert (total / divisor + 1) * divisor == total / divisor * divisor + divisor;
  }

  /** What compilation requires of resolved bounds. */
  predicate BoundsAccepted(b: Bounds) {
    && b.minimum <= b.maximum <= MAX_FIXED_ARGUMENTS
    && 0 < b.itemBytes <= MAX_ARGUMENT_BYTES
    && b.maximum * b.itemBytes <= MAX_FIXED_ARGUMENT_BYTES
  }

  /** Declarations that compiled with the two independent ceilings still resolve to the same bounds. */
  lemma OldDeclarationsKeepTheirBounds(minItems: Option<nat>, maxItems: Option<nat>, maxItemBytes: Option<nat>)
    requires BoundsAccepted(
      Bounds(Or(minItems, 0), Or(maxItems, MAX_FIXED_ARGUMENTS), Or(maxItemBytes, MAX_ARGUMENT_BYTES)))
    ensures StringArrayBounds(minItems, maxItems, maxItemBytes)
      == Bounds(Or(minItems, 0), Or(maxItems, MAX_FIXED_ARGUMENTS), Or(maxItemBytes, MAX_ARGUMENT_BYTES))
  {
    if maxItems.None? && maxItemBytes.Some? {
      assert MAX_FIXED_ARGUMENTS * maxItemBytes.value <= MAX_FIXED_ARGUMENT_BYTES;
      assert MAX_FIXED_ARGUMENT_BYTES / maxItemBytes.value >= MAX_FIXED_ARGUMENTS;
    }
    if maxItems.Some? && maxItemBytes.None? && maxItems.value > 0 {
      assert MAX_FIXED_ARGUMENT_BYTES / maxItems.value >= MAX_ARGUMENT_BYTES;
    }
  }

  // ----- Compilation

  predicate BoundedString(value: string, minLength: nat, maxLength: nat) {
    minLength <= |value| <= maxLength && ByteLen(value) <= maxLength && !HasControl(value)
  }

  predicate WithinInteger(value: int, minimum: Option<I64>, maximum: Option<I64>) {
    (minimum.Some? ==> value >= minimum.value) && (maximum.Some? ==> value <= maximum.value)
  }

  predicate WithinReal(value: real, least: Option<real>, greatest: Option<real>) {
    (least.Some? ==> value >= least.value) && (greatest.Some? ==> value <= greatest.value)
  }

  function NumberValue(number: Json.Number): real {
    match number
    case Integer(n) => n as real
    case Float(value, _) => value
  }

  predicate JsonLimitsAccepted(bytes: nat, depth: nat, nodes: nat, maximumParameterBytes: nat) {
    && 0 < bytes <= maximumParameterBytes
    && 0 < depth <= MAX_TYPED_JSON_DEPTH
    && 0 < nodes <= MAX_TYPED_JSON_NODES
  }

  /** The shape of an accepted parameter, or `None` when its constraints are rejected. */
  function CompileParameter(parameter: Parameter, maximumParameterBytes: nat): Option<Shape> {
    match parameter
    case StringParameter(required, default, enums, minLength, maxLength) =>
      var minimum, maximum := Or(minLength, 0), Or(maxLength, maximumParameterBytes);
      if |enums| > MAX_TYPED_ENUM_VALUES || minimum > maximum || maximum > maximumParameterBytes then None
      else if !(forall value :: value in enums ==> BoundedString(value, minimum, maximum)) then None
      else if TotalByteLen(enums) > MAX_FIXED_ARGUMENT_BYTES then None
      else if default.Some? && !BoundedString(default.value, minimum, maximum) then None
      else if default.Some? && enums != [] && default.value !in enums && !(!required && default.value == "") then None
      else Some(Scalar(maximum))
    case WorkspacePathParameter(maxLength) =>
      var maximum := Or(maxLength, maximumParameterBytes);
      if maximum == 0 || maximum > maximumParameterBytes then None else Some(Scalar(maximum))
    case IntegerParameter(default, enums, minimum, maximum) =>
      if |enums| > MAX_TYPED_ENUM_VALUES then None
      else if minimum.Some? && maximum.Some? && minimum.value > maximum.value then None
      else if default.Some? && !WithinInteger(default.value, minimum, maximum) then None
      else if default.Some? && enums != [] && default.value !in enums then None
      else if !(forall value :: value in enums ==> WithinInteger(value, minimum, maximum)) then None
      else Some(Scalar(32))
    case NumberParameter(default, least, greatest) =>
      if least.Some? && greatest.Some? && least.value > greatest.value then None
      else if default.Some? && !WithinReal(NumberValue(default.value), least, greatest) then None
      else Some(Scalar(64))
    case BooleanParameter(_) => Some(Boolean)
    case StringArrayParameter(minItems, maxItems, maxItemBytes) =>
      var b := StringArrayBounds(minItems, maxItems, maxItemBytes);
      if BoundsAccepted(b) then Some(StringArray(b.maximum, b.itemBytes)) else None
    case JsonObjectParameter(maxBytes, maxDepth, maxNodes) =>
      var bytes := Or(maxBytes, maximumParameterBytes);
      if JsonLimitsAccepted(bytes, Or(maxDepth, MAX_TYPED_JSON_DEPTH), Or(maxNodes, MAX_TYPED_JSON_NODES),
                            maximumParameterBytes)
      then Some(JsonObject(bytes)) else None
    case JsonArrayParameter(maxBytes, maxDepth, maxNodes, maxElements) =>
      var bytes := Or(maxBytes, maximumParameterBytes);
      if JsonLimitsAccepted(bytes, Or(maxDepth, MAX_TYPED_JSON_DEPTH), Or(maxNodes, MAX_TYPED_JSON_NODES),
                            maximumParameterBytes)
         && Or(maxElements, MAX_FIXED_ARGUMENTS) <= MAX_FIXED_ARGUMENTS
      then Some(JsonArray(bytes)) else None
  }

  /** The parameter kept for run time: an omitted length is fixed to the compile-time maximum. */
  function Compiled(parameter: Parameter, maximumParameterBytes: nat): Parameter {
    match parameter
    case StringParameter(_, _, _, _, None) => parameter.(maxLength := Some(maximumParameterBytes))
    case WorkspacePathParameter(None) => parameter.(maxPathLength := Some(maximumParameterBytes))
    case JsonObjectParameter(None, _, _) => parameter.(maxObjectBytes := Some(maximumParameterBytes))
    case JsonArrayParameter(None, _, _, _) => parameter.(maxArrayBytes := Some(maximumParameterBytes))
    case _ => parameter
  }

  // ----- Run time

  predicate ShapeWithin(value: Json.Value, maxDepth: nat, maxNodes: nat) {
    Json.Nodes(value) <= maxNodes && Json.Depth(value) <= maxDepth
  }

  predicate EncodesWithin(encode: Encoder, value: Json.Value, maximum: nat) {
    encode(value).Some? && ByteLen(encode(value).value) <= maximum
  }

  predicate RuntimeValid(parameter: Parameter, value: Json.Value, encode: Encoder) {
    match parameter
    case StringParameter(_, default, enums, minLength, maxLength) =>
      && value.Str?
      && BoundedString(value.text, Or(minLength, 0), Or(maxLength, MAX_ARGUMENT_BYTES))
      && (enums == [] || value.text in enums || default == Some(value.text))
    case WorkspacePathParameter(maxLength) =>
      && value.Str? && value.text != ""
      && ByteLen(value.text) <= Or(maxLength, MAX_ARGUMENT_BYTES) && !HasControl(value.text)
    case IntegerParameter(_, enums, minimum, maximum) =>
      && value.Num? && value.number.Integer? && value.number.whole < 0x8000_0000_0000_0000
      && WithinInteger(value.number.whole, minimum, maximum)
      && (enums == [] || value.number.whole in enums)
    case NumberParameter(_, least, greatest) =>
      value.Num? && WithinReal(NumberValue(value.number), least, greatest)
    case BooleanParameter(_) => value.Bool?
    case StringArrayParameter(minItems, maxItems, maxItemBytes) =>
      var b := StringArrayBounds(minItems, maxItems, maxItemBytes);
      && value.Array? && b.minimum <= |value.items| <= b.maximum
      && forall i :: 0 <= i < |value.items| ==>
           value.items[i].Str? && ByteLen(value.items[i].text) <= b.itemBytes && !HasControl(value.items[i].text)
    case JsonObjectParameter(maxBytes, maxDepth, maxNodes) =>
      && value.Object?
      && ShapeWithin(value, Or(maxDepth, MAX_TYPED_JSON_DEPTH), Or(maxNodes, MAX_TYPED_JSON_NODES))
      && EncodesWithin(encode, value, Or(maxBytes, MAX_ARGUMENT_BYTES))
    case JsonArrayParameter(maxBytes, maxDepth, maxNodes, maxElements) =>
      && value.Array? && |value.items| <= Or(maxElements, MAX_FIXED_ARGUMENTS)
      && ShapeWithin(value, Or(maxDepth, MAX_TYPED_JSON_DEPTH), Or(maxNodes, MAX_TYPED_JSON_NODES))
      && EncodesWithin(encode, value, Or(maxBytes, MAX_ARGUMENT_BYTES))
  }

  function DefaultValue(parameter: Parameter): Option<Json.Value> {
    match parameter
    case StringParameter(_, Some(text), _, _, _) => Some(Json.Str(text))
    case IntegerParameter(Some(n), _, _, _) => Some(Json.Num(Json.Integer(n)))
    case NumberParameter(Some(number), _, _) => Some(Json.Num(number))
    case BooleanParameter(Some(bit)) => Some(Json.Bool(bit))
    case _ => None
  }

  /** Every default that compiles is a valid run-time value of the compiled parameter. */
  lemma DefaultsPass(parameter: Parameter, maximumParameterBytes: nat, encode: Encoder)
    requires CompileParameter(parameter, maximumParameterBytes).Some?
    requires DefaultValue(parameter).Some?
    ensures DefaultValue(Compiled(parameter, maximumParameterBytes)) == DefaultValue(parameter)
    ensures RuntimeValid(Compiled(parameter, maximumParameterBytes), DefaultValue(parameter).value, encode)
  {
  }

  /**
   What filling in the length is for: a default that compiled without a declared length would pass as it
   stands exactly when it fits an ordinary argument, so only the filled-in length admits longer ones.
   */
  lemma FilledInLengthMatters(parameter: Parameter, maximumParameterBytes: nat, encode: Encoder)
    requires CompileParameter(parameter, maximumParameterBytes).Some?
    requires DefaultValue(parameter).Some?
    ensures RuntimeValid(parameter, DefaultValue(parameter).value, encode) <==>
      (parameter.StringParameter? && parameter.maxLength.None? ==>
         ByteLen(parameter.defaultText.value) <= MAX_ARGUMENT_BYTES)
  {
    if parameter.StringParameter? {
      ByteLenCovers(parameter.defaultText.value);
    }
  }

  // ----- The run-time check

  method ValidateRuntimeParameter(parameter: Parameter, value: Json.Value, encode: Encoder) returns (ok: bool)
    ensures ok <==> RuntimeValid(parameter, value, encode)
  {
    hide ByteLen, HasControl, BoundedString, StringArrayBounds;
    match parameter {
      case StringParameter(_, default, enums, minLength, maxLength) =>
        ok := value.Str?
          && BoundedString(value.text, Or(minLength, 0), Or(maxLength, MAX_ARGUMENT_BYTES))
          && (enums == [] || value.text in enums || default == Some(value.text));
      case WorkspacePathParameter(maxLength) =>
        ok := value.Str? && value.text != ""
          && ByteLen(value.text) <= Or(maxLength, MAX_ARGUMENT_BYTES) && !HasControl(value.text);
      case IntegerParameter(_, enums, minimum, maximum) =>
        ok := value.Num? && value.number.Integer? && value.number.whole < 0x8000_0000_0000_0000
          && WithinInteger(value.number.whole, minimum, maximum)
          && (enums == [] || value.number.whole in enums);
      case NumberParameter(_, least, greatest) =>
        ok := value.Num? && WithinReal(NumberValue(value.number), least, greatest);
      case BooleanParameter(_) =>
        ok := value.Bool?;
      case StringArrayParameter(minItems, maxItems, maxItemBytes) =>
        ok := ValidateItems(StringArrayBounds(minItems, maxItems, maxItemBytes), value);
      case JsonObjectParameter(maxBytes, maxDepth, maxNodes) =>
        if !value.Object? {
          return false;
        }
        ok := ValidateDocument(value, maxBytes, maxDepth, maxNodes, encode);
      case JsonArrayParameter(maxBytes, maxDepth, maxNodes, maxElements) =>
        if !value.Array? || |value.items| > Or(maxElements, MAX_FIXED_ARGUMENTS) {
          return false;
        }
        ok := ValidateDocument(value, maxBytes, maxDepth, maxNodes, encode);
    }
  }

  method ValidateItems(b: Bounds, value: Json.Value) returns (ok: bool)
    ensures ok <==>
      && value.Array? && b.minimum <= |value.items| <= b.maximum
      && forall i :: 0 <= i < |value.items| ==>
           value.items[i].Str? && ByteLen(value.items[i].text) <= b.itemBytes && !HasControl(value.items[i].text)
  {
    if !value.Array? || |value.items| < b.minimum || |value.items| > b.maximum {
      return false;
    }
    for i := 0 to |value.items|
      invariant forall k :: 0 <= k < i ==>
        value.items[k].Str? && ByteLen(value.items[k].text) <= b.itemBytes && !HasControl(value.items[k].text)
    {
      var item := value.items[i];
      if !item.Str? || ByteLen(item.text) > b.itemBytes || HasControl(item.text) {
        return false;
      }
    }
    return true;
  }

  /** The shape is bounded before the value is encoded. */
  method ValidateDocument(value: Json.Value, maxBytes: Option<nat>, maxDepth: Option<nat>, maxNodes: Option<nat>,
                          encode: Encoder)
    returns (ok: bool)
    ensures ok <==>
      && ShapeWithin(value, Or(maxDepth, MAX_TYPED_JSON_DEPTH), Or(maxNodes, MAX_TYPED_JSON_NODES))
      && EncodesWithin(encode, value, Or(maxBytes, MAX_ARGUMENT_BYTES))
  {
    var shape := Json.BoundedJsonShape(value, Or(maxDepth, MAX_TYPED_JSON_DEPTH), Or(maxNodes, MAX_TYPED_JSON_NODES));
    if !shape {
      return false;
    }
    var encoded := encode(value);
    ok := encoded.Some? && ByteLen(encoded.value) <= Or(maxBytes, MAX_ARGUMENT_BYTES);
  }
}
