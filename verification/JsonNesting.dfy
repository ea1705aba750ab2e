/**
 The byte scanner that bounds nesting before any JSON is parsed, against the structure of the text.

 `Text` is the concrete syntax of RFC 8259, sections 2 and 7. Scalar tokens and escape sequences are
 left wider than the grammar: any bytes without a quote or bracket, and any byte after a backslash.
 */
module JsonNesting {
  import opened Bytes

  const MAX_LIFECYCLE_STATUS_JSON_DEPTH: nat := 32

  const QUOTE: byte := 0x22
  const BACKSLASH: byte := 0x5C
  const OPEN_BRACKET: byte := 0x5B
  const CLOSE_BRACKET: byte := 0x5D
  const OPEN_BRACE: byte := 0x7B
  const CLOSE_BRACE: byte := 0x7D
  const COMMA: byte := 0x2C
  const COLON: byte := 0x3A

  // ----- Concrete syntax

  datatype StringItem = Unescaped(b: byte) | Escaped(b: byte)

  datatype Member = Member(before: Bytes, name: seq<StringItem>, after: Bytes, value: Text)

  datatype Text =
    | Scalar(token: Bytes)
    | Quoted(items: seq<StringItem>)
    | Array(pad: Bytes, elements: seq<Text>)
    | Object(pad: Bytes, members: seq<Member>)
    | Spaced(before: Bytes, value: Text, after: Bytes)

  /** A byte that means nothing to nesting outside strings: part of a scalar token, or blank space. */
  predicate Inert(b: byte) {
    b !in {QUOTE, OPEN_BRACKET, CLOSE_BRACKET, OPEN_BRACE, CLOSE_BRACE}
  }

  predicate AllInert(s: Bytes) {
    forall i :: 0 <= i < |s| ==> Inert(s[i])
  }

  predicate StringOk(items: seq<StringItem>) {
    forall i :: 0 <= i < |items| && items[i].Unescaped? ==> items[i].b != QUOTE && items[i].b != BACKSLASH
  }

  ghost predicate TextOk(text: Text) {
    match text
    case Scalar(token) => AllInert(token)
    case Quoted(items) => StringOk(items)
    case Array(pad, elements) => AllInert(pad) && forall i :: 0 <= i < |elements| ==> TextOk(elements[i])
    case Object(pad, members) =>
      AllInert(pad)
      && forall i :: 0 <= i < |members| ==>
           && AllInert(members[i].before) && StringOk(members[i].name) && AllInert(members[i].after)
           && TextOk(members[i].value)
    case Spaced(before, value, after) => AllInert(before) && TextOk(value) && AllInert(after)
  }

  function RenderItems(items: seq<StringItem>): Bytes {
    if items == [] then []
    else (if items[0].Escaped? then [BACKSLASH, items[0].b] else [items[0].b]) + RenderItems(items[1..])
  }

  function RenderString(items: seq<StringItem>): Bytes {
    [QUOTE] + RenderItems(items) + [QUOTE]
  }

  function Render(text: Text): Bytes
    decreases text, 1
  {
    match text
    case Scalar(token) => token
    case Quoted(items) => RenderString(items)
    case Array(pad, elements) => [OPEN_BRACKET] + pad + RenderElements(elements) + [CLOSE_BRACKET]
    case Object(pad, members) => [OPEN_BRACE] + pad + RenderMembers(members) + [CLOSE_BRACE]
    case Spaced(before, value, after) => before + Render(value) + after
  }

  function RenderElements(elements: seq<Text>): Bytes
    decreases elements, 0
  {
    if elements == [] then []
    else if |elements| == 1 then Render(elements[0])
    else Render(elements[0]) + [COMMA] + RenderElements(elements[1..])
  }

  function RenderMember(member: Member): Bytes
    decreases member, 1
  {
    member.before + RenderString(member.name) + member.after + [COLON] + Render(member.value)
  }

  function RenderMembers(members: seq<Member>): Bytes
    decreases members, 0
  {
    if members == [] then []
    else if |members| == 1 then RenderMember(members[0])
    else RenderMember(members[0]) + [COMMA] + RenderMembers(members[1..])
  }

  function Max(a: nat, b: nat): nat {
    if a > b then a else b
  }

  /** How many arrays and objects stand inside one another at most. */
  function Nesting(text: Text): nat
    decreases text, 1
  {
    match text
    case Scalar(_) => 0
    case Quoted(_) => 0
    case Array(_, elements) => 1 + NestingOfElements(elements)
    case Object(_, members) => 1 + NestingOfMembers(members)
    case Spaced(_, value, _) => Nesting(value)
  }

  function NestingOfElements(elements: seq<Text>): nat
    decreases elements, 0
  {
    if elements == [] then 0 else Max(Nesting(elements[0]), NestingOfElements(elements[1..]))
  }

  function NestingOfMembers(members: seq<Member>): nat
    decreases members, 0
  {
    if members == [] then 0 else Max(Nesting(members[0].value), NestingOfMembers(members[1..]))
  }

  // ----- Nesting by the paths into a text

  /** The text without the blank space around it. */
  function Core(text: Text): Text {
    if text.Spaced? then Core(text.value) else text
  }

  /** What stands inside at the given place, without the blank space around it. */
  function Into(text: Text, path: seq<nat>): Option<Text>
    decreases |path|
  {
    if path == [] then Some(Core(text))
    else
      match Core(text)
      case Array(_, elements) => if path[0] < |elements| then Into(elements[path[0]], path[1..]) else None
      case Object(_, members) => if path[0] < |members| then Into(members[path[0]].value, path[1..]) else None
      case _ => None
  }

  predicate Container(text: Option<Text>) {
    text.Some? && (text.value.Array? || text.value.Object?)
  }

  lemma {:induction false} ElementsWithin(elements: seq<Text>, limit: nat)
    ensures NestingOfElements(elements) <= limit <==> forall i :: 0 <= i < |elements| ==> Nesting(elements[i]) <= limit
  {
    if elements != [] {
      ElementsWithin(elements[1..], limit);
      assert forall i :: 0 < i < |elements| ==> elements[i] == elements[1..][i - 1];
      if forall i :: 0 <= i < |elements| ==> Nesting(elements[i]) <= limit {
        assert forall i :: 0 <= i < |elements[1..]| ==> elements[1..][i] == elements[i + 1];
      }
    }
  }

  lemma {:induction false} MembersWithin(members: seq<Member>, limit: nat)
    ensures NestingOfMembers(members) <= limit <==> forall i :: 0 <= i < |members| ==> Nesting(members[i].value) <= limit
  {
    if members != [] {
      MembersWithin(members[1..], limit);
      assert forall i :: 0 < i < |members| ==> members[i] == members[1..][i - 1];
      if forall i :: 0 <= i < |members| ==> Nesting(members[i].value) <= limit {
        assert forall i :: 0 <= i < |members[1..]| ==> members[1..][i] == members[i + 1];
      }
    }
  }

  lemma {:induction false} CoreNests(text: Text)
    ensures Nesting(Core(text)) == Nesting(text) && !Core(text).Spaced?
    ensures Core(text) == text || Core(text) < text
  {
    if text.Spaced? {
      CoreNests(text.value);
    }
  }

  /** No container stands behind a path as long as the limit or longer. */
  ghost predicate PathsWithin(text: Text, limit: nat) {
    forall path :: Container(Into(text, path)) ==> |path| < limit
  }

  /** Nesting is within a limit exactly if every container lies behind fewer other containers than the limit. */
  lemma {:induction false} NestingExactlyWhen(text: Text, limit: nat)
    ensures Nesting(text) <= limit <==> PathsWithin(text, limit)
    decreases text
  {
    CoreNests(text);
    var core := Core(text);
    if limit == 0 {
      assert core.Array? || core.Object? ==> Container(Into(text, []));
    } else if core.Array? {
      ElementsWithin(core.elements, limit - 1);
      forall i | 0 <= i < |core.elements|
        ensures Nesting(core.elements[i]) <= limit - 1 <==> PathsWithin(core.elements[i], limit - 1)
      {
        NestingExactlyWhen(core.elements[i], limit - 1);
      }
      StepIn(text, core.elements, limit);
    } else if core.Object? {
      MembersWithin(core.members, limit - 1);
      var values := seq(|core.members|, i requires 0 <= i < |core.members| => core.members[i].value);
      forall i | 0 <= i < |core.members|
        ensures Nesting(core.members[i].value) <= limit - 1 <==> PathsWithin(values[i], limit - 1)
      {
        NestingExactlyWhen(core.members[i].value, limit - 1);
      }
      StepIn(text, values, limit);
    }
  }

  lemma StepIn(text: Text, children: seq<Text>, limit: nat)
    requires limit > 0
    requires forall path :: path != [] ==>
      Into(text, path) == if path[0] < |children| then Into(children[path[0]], path[1..]) else None
    ensures PathsWithin(text, limit) <==> forall i :: 0 <= i < |children| ==> PathsWithin(children[i], limit - 1)
  {
    if PathsWithin(text, limit) {
      forall i, path: seq<nat> | 0 <= i < |children| && Container(Into(children[i], path))
        ensures |path| < limit - 1
      {
        assert ([i] + path)[1..] == path;
        assert Container(Into(text, [i] + path));
      }
    }
    if forall i :: 0 <= i < |children| ==> PathsWithin(children[i], limit - 1) {
      forall path | Container(Into(text, path))
        ensures |path| < limit
      {
        if path != [] {
          assert Container(Into(children[path[0]], path[1..]));
        }
      }
    }
  }

  // ----- The scanner

  datatype Scanner = Scanner(depth: nat, inString: bool, escaped: bool)

  /** One byte; `None` once the depth exceeds the limit. */
  function Feed(s: Scanner, b: byte, limit: nat): Option<Scanner> {
    if s.inString then
      Some(if s.escaped then s.(escaped := false)
           else if b == BACKSLASH then s.(escaped := true)
           else if b == QUOTE then s.(inString := false)
           else s)
    else if b == QUOTE then Some(s.(inString := true))
    else if b == OPEN_BRACE || b == OPEN_BRACKET then
      if s.depth + 1 > limit then None else Some(s.(depth := s.depth + 1))
    else if b == CLOSE_BRACE || b == CLOSE_BRACKET then
      Some(s.(depth := if s.depth == 0 then 0 else s.depth - 1))
    else Some(s)
  }

  function FeedAll(s: Scanner, bytes: Bytes, limit: nat): Option<Scanner>
    decreases |bytes|
  {
    if bytes == [] then Some(s)
    else
      match Feed(s, bytes[0], limit)
      case None => None
      case Some(next) => FeedAll(next, bytes[1..], limit)
  }

  lemma {:induction false} FeedAllSplit(s: Scanner, a: Bytes, b: Bytes, limit: nat)
    ensures FeedAll(s, a + b, limit)
         == match FeedAll(s, a, limit) case None => None case Some(next) => FeedAll(next, b, limit)
    decreases |a|
  {
    if a == [] {
      assert a + b == b;
    } else {
      assert (a + b)[1..] == a[1..] + b;
      var next := Feed(s, a[0], limit);
      if next.Some? {
        FeedAllSplit(next.value, a[1..], b, limit);
      }
    }
  }

  /** Bytes outside strings that are not brackets or quotes. */
  lemma {:induction false} FeedInert(depth: nat, bytes: Bytes, limit: nat)
    requires AllInert(bytes)
    ensures FeedAll(Scanner(depth, false, false), bytes, limit) == Some(Scanner(depth, false, false))
  {
    if bytes != [] {
      FeedInert(depth, bytes[1..], limit);
    }
  }

  lemma {:induction false} FeedItems(depth: nat, items: seq<StringItem>, limit: nat)
    requires StringOk(items)
    ensures FeedAll(Scanner(depth, true, false), RenderItems(items), limit) == Some(Scanner(depth, true, false))
    decreases |items|
  {
    if items != [] {
      var s := Scanner(depth, true, false);
      var head := if items[0].Escaped? then [BACKSLASH, items[0].b] else [items[0].b];
      FeedItems(depth, items[1..], limit);
      assert head[1..] == if items[0].Escaped? then [items[0].b] else [];
      assert items[0].Escaped? ==> FeedAll(Scanner(depth, true, true), [items[0].b], limit) == Some(s);
      assert FeedAll(s, head, limit) == Some(s);
      FeedAllSplit(s, head, RenderItems(items[1..]), limit);
    }
  }

  /** A string changes nothing, whatever brackets, quotes or escapes it holds. */
  lemma FeedString(depth: nat, items: seq<StringItem>, limit: nat)
    requires StringOk(items)
    ensures FeedAll(Scanner(depth, false, false), RenderString(items), limit) == Some(Scanner(depth, false, false))
  {
    var outside, inside := Scanner(depth, false, false), Scanner(depth, true, false);
    FeedItems(depth, items, limit);
    FeedAllSplit(inside, RenderItems(items), [QUOTE], limit);
    assert FeedAll(inside, [QUOTE], limit) == Some(outside);
    FeedAllSplit(outside, [QUOTE], RenderItems(items) + [QUOTE], limit);
    assert FeedAll(outside, [QUOTE], limit) == Some(inside);
    assert RenderString(items) == [QUOTE] + (RenderItems(items) + [QUOTE]);
  }

  function Outcome(depth: nat, nesting: nat, limit: nat): Option<Scanner> {
    if depth + nesting > limit then None else Some(Scanner(depth, false, false))
  }

  lemma FeedBracketed(depth: nat, open: byte, pad: Bytes, body: Bytes, close: byte, nesting: nat, limit: nat)
    requires depth <= limit && AllInert(pad)
    requires open in {OPEN_BRACKET, OPEN_BRACE} && close in {CLOSE_BRACKET, CLOSE_BRACE}
    requires depth + 1 <= limit ==> FeedAll(Scanner(depth + 1, false, false), body, limit) == Outcome(depth + 1, nesting, limit)
    ensures FeedAll(Scanner(depth, false, false), [open] + pad + body + [close], limit)
         == Outcome(depth, 1 + nesting, limit)
  {
    var here, inner := Scanner(depth, false, false), Scanner(depth + 1, false, false);
    assert [open] + pad + body + [close] == [open] + (pad + (body + [close]));
    FeedAllSplit(here, [open], pad + (body + [close]), limit);
    if depth + 1 <= limit {
      assert FeedAll(here, [open], limit) == Some(inner);
      FeedInert(depth + 1, pad, limit);
      FeedAllSplit(inner, pad, body + [close], limit);
      FeedAllSplit(inner, body, [close], limit);
      assert FeedAll(inner, [close], limit) == Some(here);
    }
  }

  lemma {:induction false} FeedText(depth: nat, text: Text, limit: nat)
    requires TextOk(text) && depth <= limit
    ensures FeedAll(Scanner(depth, false, false), Render(text), limit) == Outcome(depth, Nesting(text), limit)
    decreases text, 1
  {
    var here := Scanner(depth, false, false);
    match text {
      case Scalar(token) =>
        FeedInert(depth, token, limit);
      case Quoted(items) =>
        FeedString(depth, items, limit);
      case Array(pad, elements) =>
        if depth + 1 <= limit {
          FeedElements(depth + 1, elements, limit);
        }
        FeedBracketed(depth, OPEN_BRACKET, pad, RenderElements(elements), CLOSE_BRACKET,
                      NestingOfElements(elements), limit);
      case Object(pad, members) =>
        if depth + 1 <= limit {
          FeedMembers(depth + 1, members, limit);
        }
        FeedBracketed(depth, OPEN_BRACE, pad, RenderMembers(members), CLOSE_BRACE,
                      NestingOfMembers(members), limit);
      case Spaced(before, value, after) =>
        FeedText(depth, value, limit);
        FeedInert(depth, before, limit);
        FeedInert(depth, after, limit);
        assert before + Render(value) + after == before + (Render(value) + after);
        FeedAllSplit(here, before, Render(value) + after, limit);
        FeedAllSplit(here, Render(value), after, limit);
    }
  }

  lemma {:induction false} FeedElements(depth: nat, elements: seq<Text>, limit: nat)
    requires depth <= limit
    requires forall i :: 0 <= i < |elements| ==> TextOk(elements[i])
    ensures FeedAll(Scanner(depth, false, false), RenderElements(elements), limit)
         == Outcome(depth, NestingOfElements(elements), limit)
    decreases elements, 0
  {
    if elements != [] {
      FeedText(depth, elements[0], limit);
      FeedElements(depth, elements[1..], limit);
      FeedSeparated(depth, Render(elements[0]), RenderElements(elements[1..]),
                    Nesting(elements[0]), NestingOfElements(elements[1..]), limit);
    }
  }

  lemma {:induction false} FeedMembers(depth: nat, members: seq<Member>, limit: nat)
    requires depth <= limit
    requires forall i :: 0 <= i < |members| ==>
      && AllInert(members[i].before) && StringOk(members[i].name) && AllInert(members[i].after)
      && TextOk(members[i].value)
    ensures FeedAll(Scanner(depth, false, false), RenderMembers(members), limit)
         == Outcome(depth, NestingOfMembers(members), limit)
    decreases members, 0
  {
    if members != [] {
      FeedText(depth, members[0].value, limit);
      FeedMember(depth, members[0], limit);
      FeedMembers(depth, members[1..], limit);
      FeedSeparated(depth, RenderMember(members[0]), RenderMembers(members[1..]),
                    Nesting(members[0].value), NestingOfMembers(members[1..]), limit);
    }
  }

  lemma FeedMember(depth: nat, member: Member, limit: nat)
    requires AllInert(member.before) && StringOk(member.name) && AllInert(member.after)
    requires FeedAll(Scanner(depth, false, false), Render(member.value), limit)
          == Outcome(depth, Nesting(member.value), limit)
    ensures FeedAll(Scanner(depth, false, false), RenderMember(member), limit)
         == Outcome(depth, Nesting(member.value), limit)
  {
    hide FeedAll, Render, RenderString;
    var here := Scanner(depth, false, false);
    var colon := [COLON] + Render(member.value);
    FeedInert(depth, [COLON], limit);
    FeedAllSplit(here, [COLON], Render(member.value), limit);
    FeedInert(depth, member.after, limit);
    FeedAllSplit(here, member.after, colon, limit);
    FeedString(depth, member.name, limit);
    FeedAllSplit(here, RenderString(member.name), member.after + colon, limit);
    FeedInert(depth, member.before, limit);
    FeedAllSplit(here, member.before, RenderString(member.name) + (member.after + colon), limit);
    assert RenderMember(member) == member.before + (RenderString(member.name) + (member.after + colon));
  }

  /** Two neighbours, with or without the comma between them. */
  lemma FeedSeparated(depth: nat, first: Bytes, rest: Bytes, one: nat, other: nat, limit: nat)
    requires depth <= limit
    requires FeedAll(Scanner(depth, false, false), first, limit) == Outcome(depth, one, limit)
    requires FeedAll(Scanner(depth, false, false), rest, limit) == Outcome(depth, other, limit)
    ensures FeedAll(Scanner(depth, false, false), first + [COMMA] + rest, limit)
         == Outcome(depth, Max(one, other), limit)
  {
    var here := Scanner(depth, false, false);
    assert first + [COMMA] + rest == first + ([COMMA] + rest);
    FeedAllSplit(here, first, [COMMA] + rest, limit);
    FeedInert(depth, [COMMA], limit);
    FeedAllSplit(here, [COMMA], rest, limit);
  }

  /** On well-formed text the scan fails exactly when the nesting exceeds the limit. */
  lemma ScanIsNesting(text: Text, limit: nat)
    requires TextOk(text)
    ensures FeedAll(Scanner(0, false, false), Render(text), limit).None? <==> Nesting(text) > limit
  {
    FeedText(0, text, limit);
  }

  // ----- The loop

  method ValidateJsonNesting(bytes: Bytes) returns (tooDeep: bool)
    ensures tooDeep <==> FeedAll(Scanner(0, false, false), bytes, MAX_LIFECYCLE_STATUS_JSON_DEPTH).None?
    ensures forall text :: TextOk(text) && bytes == Render(text) ==>
      (tooDeep <==> Nesting(text) > MAX_LIFECYCLE_STATUS_JSON_DEPTH)
  {
    forall text | TextOk(text) && bytes == Render(text)
      ensures FeedAll(Scanner(0, false, false), bytes, MAX_LIFECYCLE_STATUS_JSON_DEPTH).None?
        <==> Nesting(text) > MAX_LIFECYCLE_STATUS_JSON_DEPTH
    {
      ScanIsNesting(text, MAX_LIFECYCLE_STATUS_JSON_DEPTH);
    }
    var depth: nat, inString, escaped := 0, false, false;
    var i := 0;
    assert bytes[0..] == bytes;
    while i < |bytes|
      invariant i <= |bytes| && (escaped ==> inString)
      invariant FeedAll(Scanner(depth, inString, escaped), bytes[i..], MAX_LIFECYCLE_STATUS_JSON_DEPTH)
             == FeedAll(Scanner(0, false, false), bytes, MAX_LIFECYCLE_STATUS_JSON_DEPTH)
    {
      var b := bytes[i];
      assert bytes[i..][0] == b && bytes[i..][1..] == bytes[i + 1..];
      i := i + 1;
      if inString {
        if escaped {
          escaped := false;
        } else if b == BACKSLASH {
          escaped := true;
        } else if b == QUOTE {
          inString := false;
        }
        continue;
      }
      if b == QUOTE {
        inString := true;
      } else if b == OPEN_BRACE || b == OPEN_BRACKET {
        depth := depth + 1;
        if depth > MAX_LIFECYCLE_STATUS_JSON_DEPTH {
          return true;
        }
      } else if b == CLOSE_BRACE || b == CLOSE_BRACKET {
        depth := if depth == 0 then 0 else depth - 1;
      }
    }
    return false;
  }
}
