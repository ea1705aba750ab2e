/**
 Redaction of owned segments without joining them: bytes are read and overwritten where they are,
 through the table of segment offsets.
 */
module SegmentedRedactor {
  import opened Bytes
  import opened Ordering
  import opened Matching
  import opened Redactor

  // ----- Segments and offsets as values

  /** `offsets[i]` is where segment `i` starts in the joined text. */
  ghost predicate OffsetsOf(segments: seq<Bytes>, offsets: seq<nat>) {
    && |offsets| == |segments|
    && forall i :: 0 <= i < |segments| ==> offsets[i] == |Flatten(segments[..i])|
  }

  ghost function OffsetsFor(segments: seq<Bytes>): (offsets: seq<nat>)
    ensures OffsetsOf(segments, offsets)
  {
    seq(|segments|, i requires 0 <= i < |segments| => |Flatten(segments[..i])|)
  }

  lemma {:induction false} OffsetsStep(segments: seq<Bytes>, i: nat)
    requires i < |segments|
    ensures |Flatten(segments[..i + 1])| == |Flatten(segments[..i])| + |segments[i]| <= |Flatten(segments)|
  {
    FlattenPrefix(segments, i);
    FlattenPrefix(segments, i + 1);
  }

  lemma {:induction false} OffsetsGrow(segments: seq<Bytes>, i: nat, j: nat)
    requires i <= j <= |segments|
    ensures |Flatten(segments[..i])| <= |Flatten(segments[..j])| <= |Flatten(segments)|
    decreases j - i
  {
    if i < j {
      OffsetsStep(segments, i);
      OffsetsGrow(segments, i + 1, j);
    } else {
      FlattenPrefix(segments, i);
    }
  }

  lemma OffsetsAreSorted(segments: seq<Bytes>, offsets: seq<nat>)
    requires OffsetsOf(segments, offsets)
    ensures forall i, j :: 0 <= i <= j < |offsets| ==> offsets[i] <= offsets[j]
    ensures forall i :: 0 <= i < |offsets| ==> offsets[i] + |segments[i]| <= |Flatten(segments)|
    ensures forall i, j :: 0 <= i < j < |offsets| ==> offsets[i] + |segments[i]| <= offsets[j]
  {
    forall i, j | 0 <= i <= j < |offsets|
      ensures offsets[i] <= offsets[j]
      ensures i < j ==> offsets[i] + |segments[i]| <= offsets[j]
    {
      OffsetsGrow(segments, i, j);
      if i < j {
        OffsetsStep(segments, i);
        OffsetsGrow(segments, i + 1, j);
      }
    }
    forall i | 0 <= i < |offsets|
      ensures offsets[i] + |segments[i]| <= |Flatten(segments)|
    {
      OffsetsStep(segments, i);
    }
  }

  /** Byte `j` of segment `i` stands at `offsets[i] + j` of the joined text. */
  lemma SegmentByte(segments: seq<Bytes>, i: nat, j: nat)
    requires i < |segments| && j < |segments[i]|
    ensures |Flatten(segments[..i])| + j < |Flatten(segments)|
    ensures Flatten(segments)[|Flatten(segments[..i])| + j] == segments[i][j]
  {
    FlattenPrefix(segments, i);
    FlattenPrefix(segments, i + 1);
  }

  function WithByte(text: Bytes, j: nat, b: byte): Bytes
    requires j < |text|
  {
    text[j := b]
  }

  lemma MiddleByte(before: Bytes, middle: Bytes, after: Bytes, j: nat, b: byte)
    requires j < |middle|
    ensures before + WithByte(middle, j, b) + after == WithByte(before + middle + after, |before| + j, b)
  {
  }

  lemma AroundSegment(segments: seq<Bytes>, i: nat)
    requires i < |segments|
    ensures Flatten(segments) == Flatten(segments[..i]) + segments[i] + Flatten(segments[i + 1..])
  {
    FlattenPrefix(segments, i);
    FlattenPrefix(segments, i + 1);
  }

  /** Changing one byte of one segment changes that byte of the joined text and no other. */
  lemma SegmentUpdate(segments: seq<Bytes>, i: nat, j: nat, b: byte)
    requires i < |segments| && j < |segments[i]|
    ensures |Flatten(segments[..i])| + j < |Flatten(segments)|
    ensures Flatten(segments[i := WithByte(segments[i], j, b)])
         == WithByte(Flatten(segments), |Flatten(segments[..i])| + j, b)
  {
    hide Flatten, WithByte;
    var changed := segments[i := WithByte(segments[i], j, b)];
    AroundSegment(segments, i);
    AroundSegment(changed, i);
    assert changed[..i] == segments[..i] && changed[i + 1..] == segments[i + 1..];
    MiddleByte(Flatten(segments[..i]), segments[i], Flatten(segments[i + 1..]), j, b);
  }

  /** The last segment that starts at or before `position`, if there is one. */
  function OwningSegment(offsets: seq<nat>, position: nat): (index: int)
    requires forall i, j :: 0 <= i <= j < |offsets| ==> offsets[i] <= offsets[j]
    ensures -1 <= index < |offsets|
    ensures forall i :: 0 <= i <= index ==> offsets[i] <= position
    ensures forall i :: index < i < |offsets| ==> offsets[i] > position
  {
    PartitionPoint(offsets, (offset: nat) => offset <= position) - 1
  }

  /** A position of the joined text lies in the segment that owns it. */
  lemma OwnerHolds(segments: seq<Bytes>, offsets: seq<nat>, position: nat)
    requires OffsetsOf(segments, offsets)
    requires forall i, j :: 0 <= i <= j < |offsets| ==> offsets[i] <= offsets[j]
    ensures var index := OwningSegment(offsets, position);
      if position < |Flatten(segments)| then
        && 0 <= index && position - offsets[index] < |segments[index]|
        && Flatten(segments)[position] == segments[index][position - offsets[index]]
      else index >= 0 ==> position - offsets[index] >= |segments[index]|
  {
    var index := OwningSegment(offsets, position);
    if index == -1 {
      assert |segments| > 0 ==> offsets[0] == |Flatten(segments[..0])|;
    } else {
      hide Flatten, OwningSegment;
      var next := |Flatten(segments[..index + 1])|;
      OffsetsStep(segments, index);
      assert next == offsets[index] + |segments[index]|;
      if index + 1 < |segments| {
        assert offsets[index + 1] == next > position;
      } else {
        assert segments[..index + 1] == segments;
      }
      if position - offsets[index] < |segments[index]| {
        SegmentByte(segments, index, position - offsets[index]);
      }
    }
  }

  // ----- Segments in memory

  /** The bytes the segments hold. */
  function Contents(inputs: seq<array<byte>>): (r: seq<Bytes>)
    reads inputs
    ensures |r| == |inputs|
    ensures forall i :: 0 <= i < |inputs| ==> r[i] == inputs[i][..]
  {
    if inputs == [] then [] else [inputs[0][..]] + Contents(inputs[1..])
  }

  ghost predicate Separate(inputs: seq<array<byte>>) {
    forall i, j :: 0 <= i < j < |inputs| ==> inputs[i] != inputs[j]
  }

  /** One byte of the joined text, read from the segment that owns it. */
  function SegmentedByte(inputs: seq<array<byte>>, offsets: seq<nat>, position: nat): (r: Option<byte>)
    requires OffsetsOf(Contents(inputs), offsets)
    requires forall i, j :: 0 <= i <= j < |offsets| ==> offsets[i] <= offsets[j]
    reads inputs
    ensures var text := Flatten(Contents(inputs));
      r == if position < |text| then Some(text[position]) else None
  {
    OwnerHolds(Contents(inputs), offsets, position);
    var index := OwningSegment(offsets, position);
    if index < 0 then None
    else
      var local := position - offsets[index];
      if local < inputs[index].Length then Some(inputs[index][local]) else None
  }

  /** The joined text that the segments hold. */
  ghost function Text(inputs: seq<array<byte>>): Bytes
    reads inputs
  {
    Flatten(Contents(inputs))
  }

  /** The offset table belongs to these segments; it stays right while only bytes change. */
  ghost predicate Table(inputs: seq<array<byte>>, offsets: seq<nat>)
    reads inputs
  {
    && OffsetsOf(Contents(inputs), offsets)
    && forall i, j :: 0 <= i <= j < |offsets| ==> offsets[i] <= offsets[j]
  }

  method SegmentOffsets(inputs: seq<array<byte>>, maxTotalBytes: nat)
    returns (r: Result<(seq<nat>, nat), RedactionError>)
    ensures r == Err(RedactionInputTooLarge) <==> |Text(inputs)| > maxTotalBytes
    ensures r.Ok? ==> Table(inputs, r.value.0) && r.value.1 == |Text(inputs)|
    ensures r.Err? ==> r.error == RedactionInputTooLarge
  {
    ghost var segments := Contents(inputs);
    var offsets: seq<nat>, totalBytes := [], 0;
    for i := 0 to |inputs|
      invariant |offsets| == i && totalBytes == |Flatten(segments[..i])| <= maxTotalBytes
      invariant forall k :: 0 <= k < i ==> offsets[k] == |Flatten(segments[..k])|
    {
      OffsetsStep(segments, i);
      offsets := offsets + [totalBytes];
      totalBytes := totalBytes + inputs[i].Length;
      if totalBytes > maxTotalBytes {
        return Err(RedactionInputTooLarge);
      }
    }
    assert segments[..|inputs|] == segments;
    OffsetsAreSorted(segments, offsets);
    r := Ok((offsets, totalBytes));
  }

  // ----- Matching across segments

  /** Whether the segments spell `pattern` from `position` on. */
  predicate SpelledAt(inputs: seq<array<byte>>, offsets: seq<nat>, position: nat, pattern: Bytes)
    requires Table(inputs, offsets)
    reads inputs
  {
    forall delta | 0 <= delta < |pattern| ::
      SegmentedByte(inputs, offsets, position + delta) == Some(pattern[delta])
  }

  lemma SpelledIsPrefix(inputs: seq<array<byte>>, offsets: seq<nat>, position: nat, pattern: Bytes)
    requires Table(inputs, offsets) && position <= |Text(inputs)|
    ensures SpelledAt(inputs, offsets, position, pattern) <==> pattern <= Text(inputs)[position..]
  {
    var t := Text(inputs)[position..];
    if SpelledAt(inputs, offsets, position, pattern) {
      forall delta | 0 <= delta < |pattern|
        ensures delta < |t| && t[delta] == pattern[delta]
      {
        assert SegmentedByte(inputs, offsets, position + delta) == Some(pattern[delta]);
      }
      var last := |pattern| - 1;
      assert |pattern| > 0 ==> SegmentedByte(inputs, offsets, position + last) == Some(pattern[last]);
    }
    if pattern <= t {
      forall delta | 0 <= delta < |pattern|
        ensures SegmentedByte(inputs, offsets, position + delta) == Some(pattern[delta])
      {
        assert t[delta] == pattern[delta];
      }
    }
  }

  method MatchSegmentedAt(redactor: Redactor, inputs: seq<array<byte>>, offsets: seq<nat>,
                          position: nat, key: nat, compared: nat)
    returns (r: Result<Option<nat>, RedactionError>, charged: nat)
    requires redactor.Valid() && Table(inputs, offsets) && position <= |Text(inputs)|
    ensures r.Ok? ==> r.value == KeyMatch(redactor, Text(inputs), position, key)
    ensures r.Err? ==> r.error == RedactionWorkLimitExceeded && charged > MAX_REDACTION_COMPARISON_BYTES
    ensures compared <= charged <= compared + KeyCharge(redactor, key)
  {
    hide Redactor.ValidIndex, Redactor.ValidPatterns, Redactor.Weight, Redactor.PatternOf, SpelledAt, Table, Text;
    ghost var t := Text(inputs)[position..];
    var first := redactor.KeyStart(key);
    var i := first;
    charged := compared;
    KeyStartGrows(redactor, key, key + 1);
    while i < |redactor.prefixes| && redactor.prefixes[i].key == key
      invariant first <= i <= redactor.KeyStart(key + 1)
      invariant forall e :: first <= e < i ==>
        redactor.prefixes[e].key == key && !(redactor.PatternOf(e) <= t)
      invariant compared <= charged == compared + redactor.Weight(i) - redactor.Weight(first)
    {
      var pattern := redactor.PatternOf(i);
      var end := position + |pattern|;
      charged := charged + |pattern|;
      WeightStep(redactor, i);
      KeyRangeEnds(redactor, key, i);
      WeightGrows(redactor, i + 1, redactor.KeyStart(key + 1));
      if charged > MAX_REDACTION_COMPARISON_BYTES {
        return Err(RedactionWorkLimitExceeded), charged;
      }
      SpelledIsPrefix(inputs, offsets, position, pattern);
      if SpelledAt(inputs, offsets, position, pattern) {
        FirstEntryIsLongest(redactor, t, key, first, i);
        return Ok(Some(end)), charged;
      }
      i := i + 1;
    }
    WeightGrows(redactor, i, redactor.KeyStart(key + 1));
    NoEntryMatches(redactor, t, key, first, i);
    return Ok(None), charged;
  }

  /** Tries the two-byte key, when there is a second byte, and then the one-byte key. */
  method MatchSegmentedKeys(redactor: Redactor, inputs: seq<array<byte>>, offsets: seq<nat>,
                            position: nat, first: byte, second: Option<byte>, compared: nat)
    returns (r: Result<Option<nat>, RedactionError>, charged: nat)
    requires redactor.Valid() && Table(inputs, offsets) && position < |Text(inputs)|
    requires first == Text(inputs)[position]
    requires second == if position + 1 < |Text(inputs)| then Some(Text(inputs)[position + 1]) else None
    ensures r.Ok? ==>
      var n := Longest(redactor.PatternSet(), Text(inputs)[position..]);
      r.value == if n == 0 then None else Some(position + n)
    ensures r.Err? ==> r.error == RedactionWorkLimitExceeded && charged > MAX_REDACTION_COMPARISON_BYTES
    ensures compared <= charged <= compared + TotalBytes(redactor.patterns)
  {
    hide Redactor.ValidIndex, Redactor.ValidPatterns, KeyCharge, Table, Text;
    charged := compared;
    KeysCover(redactor, Text(inputs)[position..]);
    OneKeyCharge(redactor, first);
    if second.Some? {
      var double := PairKey(first, second.value);
      TwoKeysCharge(redactor, first, double);
      r, charged := MatchSegmentedAt(redactor, inputs, offsets, position, double, charged);
      if r.Err? || r.value.Some? {
        return;
      }
    }
    r, charged := MatchSegmentedAt(redactor, inputs, offsets, position, first, charged);
  }

  // ----- Overwriting and marking

  lemma {:induction false} SameLengthsSameOffsets(a: seq<Bytes>, b: seq<Bytes>, offsets: seq<nat>)
    requires |a| == |b| && forall i :: 0 <= i < |a| ==> |a[i]| == |b[i]|
    requires OffsetsOf(a, offsets)
    ensures OffsetsOf(b, offsets)
  {
    forall n | 0 <= n <= |a|
      ensures |Flatten(a[..n])| == |Flatten(b[..n])|
    {
      SameLengthsSameTotal(a[..n], b[..n]);
    }
  }

  lemma {:induction false} SameLengthsSameTotal(a: seq<Bytes>, b: seq<Bytes>)
    requires |a| == |b| && forall i :: 0 <= i < |a| ==> |a[i]| == |b[i]|
    ensures |Flatten(a)| == |Flatten(b)|
  {
    if a != [] {
      SameLengthsSameTotal(a[1..], b[1..]);
    }
  }

  method FillSegmented(inputs: seq<array<byte>>, offsets: seq<nat>, start: nat, end: nat, replacement: byte)
    requires Separate(inputs) && Table(inputs, offsets)
    requires start <= end <= |Text(inputs)|
    modifies inputs
    ensures Table(inputs, offsets)
    ensures Text(inputs) == Overwrite(old(Text(inputs)), start, end, replacement)
  {
    ghost var text := Text(inputs);
    assert Overwrite(text, start, start, replacement) == text;
    for position := start to end
      invariant Table(inputs, offsets)
      invariant Text(inputs) == Overwrite(text, start, position, replacement)
    {
      SetSegmented(inputs, offsets, position, replacement);
      assert Overwrite(text, start, position + 1, replacement)
        == WithByte(Overwrite(text, start, position, replacement), position, replacement);
    }
  }

  /** Overwrites the byte at one position of the joined text, in the segment that owns it. */
  method SetSegmented(inputs: seq<array<byte>>, offsets: seq<nat>, position: nat, b: byte)
    requires Separate(inputs) && Table(inputs, offsets)
    requires position < |Text(inputs)|
    modifies inputs
    ensures Table(inputs, offsets)
    ensures Text(inputs) == WithByte(old(Text(inputs)), position, b)
  {
    ghost var before := Contents(inputs);
    OwnerHolds(before, offsets, position);
    var index := OwningSegment(offsets, position);
    var local := position - offsets[index];
    SegmentUpdate(before, index, local, b);
    inputs[index][local] := b;
    ghost var after := Contents(inputs);
    assert after == before[index := WithByte(before[index], local, b)];
    SameLengthsSameOffsets(before, after, offsets);
  }

  /** The span covers a byte of segment `i`, or straddles it when the segment is empty. */
  ghost predicate Touches(offsets: seq<nat>, segments: seq<Bytes>, i: nat, span: Span)
    requires i < |offsets| == |segments|
  {
    span.start < offsets[i] + |segments[i]| && offsets[i] < span.end
  }

  predicate Covers(span: Span, at: nat) {
    span.start <= at < span.end
  }

  /** For a nonempty segment, being touched is having a byte covered. */
  lemma TouchedMeansCovered(offsets: seq<nat>, segments: seq<Bytes>, i: nat, span: Span)
    requires i < |offsets| == |segments| && segments[i] != [] && span.start < span.end
    ensures Touches(offsets, segments, i, span) <==>
      exists at :: offsets[i] <= at < offsets[i] + |segments[i]| && Covers(span, at)
  {
    if Touches(offsets, segments, i, span) {
      assert Covers(span, if span.start < offsets[i] then offsets[i] else span.start);
    }
  }

  lemma MarkedRange(segments: seq<Bytes>, offsets: seq<nat>, span: Span)
    requires OffsetsOf(segments, offsets)
    requires forall i, j :: 0 <= i <= j < |offsets| ==> offsets[i] <= offsets[j]
    requires span.start < span.end <= |Flatten(segments)|
    ensures var first, last := OwningSegment(offsets, span.start), OwningSegment(offsets, span.end - 1);
      && 0 <= first && 0 <= last
      && forall i :: 0 <= i < |offsets| ==> (first <= i <= last <==> Touches(offsets, segments, i, span))
  {
    hide Flatten, OwningSegment;
    OffsetsAreSorted(segments, offsets);
    OwnerHolds(segments, offsets, span.start);
    OwnerHolds(segments, offsets, span.end - 1);
  }

  method MarkSegmentRange(ghost segments: seq<Bytes>, offsets: seq<nat>, matched: array<bool>, span: Span)
    requires OffsetsOf(segments, offsets) && matched.Length == |offsets|
    requires forall i, j :: 0 <= i <= j < |offsets| ==> offsets[i] <= offsets[j]
    requires span.start < span.end <= |Flatten(segments)|
    modifies matched
    ensures forall i :: 0 <= i < |offsets| ==>
      matched[i] == (old(matched[i]) || Touches(offsets, segments, i, span))
  {
    MarkedRange(segments, offsets, span);
    var first := OwningSegment(offsets, span.start);
    var last := OwningSegment(offsets, span.end - 1);
    var index := first;
    while index <= last
      invariant first <= index
      invariant forall i :: 0 <= i < |offsets| ==>
        matched[i] == (old(matched[i]) || (i < index && Touches(offsets, segments, i, span)))
    {
      matched[index] := true;
      index := index + 1;
    }
  }

  // ----- The whole operation

  lemma InPlacePlain(redactor: Redactor, original: Bytes, now: Bytes, cursor: nat)
    requires InPlace(redactor, original, now, cursor) && cursor < |original|
    requires Longest(redactor.PatternSet(), original[cursor..]) == 0
    ensures InPlace(redactor, original, now, cursor + 1)
  {
    SkipRenders(redactor.PatternSet(), redactor.replacement, original, cursor, cursor + 1);
    InPlaceAhead(redactor, original, now, cursor);
    assert now[cursor] == now[cursor..][0] == original[cursor..][0] == original[cursor];
    assert now[..cursor + 1] == now[..cursor] + original[cursor..cursor + 1];
  }

  /** One scanner step, as it shows in the list of matched spans. */
  lemma SpansStep(patterns: set<Bytes>, t: Bytes, position: nat)
    requires position < |t|
    ensures var n := Longest(patterns, t[position..]);
      Spans(Pieces(patterns, t[position..]), position)
        == if n == 0 then Spans(Pieces(patterns, t[position + 1..]), position + 1)
           else [Span(position, position + n)] + Spans(Pieces(patterns, t[position + n..]), position + n)
  {
    var n := Longest(patterns, t[position..]);
    assert t[position..][1..] == t[position + 1..];
    assert t[position..][n..] == t[position + n..];
  }

  lemma SpansAdd(patterns: set<Bytes>, t: Bytes, span: Span, spans: seq<Span>)
    requires span.start < span.end <= |t|
    requires Longest(patterns, t[span.start..]) == span.end - span.start
    ensures spans + Spans(Pieces(patterns, t[span.start..]), span.start)
         == spans + [span] + Spans(Pieces(patterns, t[span.end..]), span.end)
  {
    hide Pieces, Spans;
    SpansStep(patterns, t, span.start);
    var rest := Spans(Pieces(patterns, t[span.end..]), span.end);
    assert spans + ([span] + rest) == spans + [span] + rest;
  }

  /** Segment `i` is flagged exactly when one of `spans` touches it. */
  ghost predicate FlagsSay(offsets: seq<nat>, segments: seq<Bytes>, spans: seq<Span>, flags: seq<bool>)
    requires |offsets| == |segments|
  {
    && |flags| == |segments|
    && forall i :: 0 <= i < |segments| ==>
         (flags[i] <==> exists k :: 0 <= k < |spans| && Touches(offsets, segments, i, spans[k]))
  }

  lemma FlagsAdd(offsets: seq<nat>, segments: seq<Bytes>, spans: seq<Span>, before: seq<bool>,
                 span: Span, after: seq<bool>)
    requires |offsets| == |segments| && |after| == |before|
    requires FlagsSay(offsets, segments, spans, before)
    requires forall i :: 0 <= i < |segments| ==>
      after[i] == (before[i] || Touches(offsets, segments, i, span))
    ensures FlagsSay(offsets, segments, spans + [span], after)
  {
    var more := spans + [span];
    forall i | 0 <= i < |segments|
      ensures after[i] <==> exists k :: 0 <= k < |more| && Touches(offsets, segments, i, more[k])
    {
      if before[i] {
        var k :| 0 <= k < |spans| && Touches(offsets, segments, i, spans[k]);
        assert more[k] == spans[k];
      }
      if Touches(offsets, segments, i, span) {
        assert more[|spans|] == span;
      }
    }
  }

  /** Everything the scan of the segments keeps while it stands at `position`. */
  ghost predicate Scanning(redactor: Redactor, segments: seq<Bytes>, offsets: seq<nat>, now: Bytes,
                           position: nat, spans: seq<Span>, flags: seq<bool>)
    requires |offsets| == |segments|
  {
    var text := Flatten(segments);
    && InPlace(redactor, text, now, position)
    && spans + Spans(Pieces(redactor.PatternSet(), text[position..]), position)
         == Spans(Pieces(redactor.PatternSet(), text), 0)
    && FlagsSay(offsets, segments, spans, flags)
  }

  lemma ScanningStarts(redactor: Redactor, segments: seq<Bytes>, offsets: seq<nat>, flags: seq<bool>)
    requires |offsets| == |segments| == |flags|
    requires forall i :: 0 <= i < |flags| ==> !flags[i]
    ensures Scanning(redactor, segments, offsets, Flatten(segments), 0, [], flags)
  {
    InPlaceStart(redactor, Flatten(segments));
    assert Flatten(segments)[0..] == Flatten(segments);
  }

  lemma ScanningPlain(redactor: Redactor, segments: seq<Bytes>, offsets: seq<nat>, now: Bytes,
                      position: nat, spans: seq<Span>, flags: seq<bool>)
    requires |offsets| == |segments| && position < |Flatten(segments)|
    requires Scanning(redactor, segments, offsets, now, position, spans, flags)
    requires Longest(redactor.PatternSet(), now[position..]) == 0
    ensures Scanning(redactor, segments, offsets, now, position + 1, spans, flags)
  {
    hide FlagsSay, Flatten;
    var text := Flatten(segments);
    InPlaceAhead(redactor, text, now, position);
    InPlacePlain(redactor, text, now, position);
    SpansStep(redactor.PatternSet(), text, position);
  }

  lemma ScanningMatch(redactor: Redactor, segments: seq<Bytes>, offsets: seq<nat>, now: Bytes,
                      span: Span, spans: seq<Span>, before: seq<bool>, after: seq<bool>)
    requires |offsets| == |segments| && |after| == |before|
    requires span.start < span.end <= |Flatten(segments)|
    requires Scanning(redactor, segments, offsets, now, span.start, spans, before)
    requires Longest(redactor.PatternSet(), now[span.start..]) == span.end - span.start
    requires forall i :: 0 <= i < |segments| ==>
      after[i] == (before[i] || Touches(offsets, segments, i, span))
    ensures |now| == |Flatten(segments)|
    ensures Scanning(redactor, segments, offsets,
                     Overwrite(now, span.start, span.end, redactor.replacement),
                     span.end, spans + [span], after)
  {
    hide FlagsSay, Flatten, Touches;
    var text := Flatten(segments);
    assert |now| == |text|;
    hide InPlace, Overwrite, Pieces, Spans;
    InPlaceAhead(redactor, text, now, span.start);
    assert now[span.start..] == text[span.start..];
    InPlaceMatch(redactor, text, now, span.start, span);
    SpansAdd(redactor.PatternSet(), text, span, spans);
    FlagsAdd(offsets, segments, spans, before, span, after);
  }

  lemma ScanningEnds(redactor: Redactor, segments: seq<Bytes>, offsets: seq<nat>, now: Bytes,
                     position: nat, spans: seq<Span>, flags: seq<bool>)
    requires |offsets| == |segments|
    requires Scanning(redactor, segments, offsets, now, position, spans, flags)
    requires position == |Flatten(segments)| || redactor.PatternSet() == {}
    ensures now == Keep(redactor.PatternSet(), redactor.replacement, Flatten(segments))
    ensures FlagsSay(offsets, segments, Spans(Pieces(redactor.PatternSet(), Flatten(segments)), 0), flags)
  {
    hide FlagsSay, Flatten;
    var text := Flatten(segments);
    InPlaceEnd(redactor, text, now, position);
    SkipPlain(redactor.PatternSet(), text, position, |text|);
    assert text[|text|..] == [];
    PlainHasNoSpans(Pieces(redactor.PatternSet(), text[position..]), position);
    assert spans + [] == spans;
  }

  lemma {:induction false} PlainHasNoSpans(pieces: seq<Piece>, base: nat)
    requires forall k :: 0 <= k < |pieces| ==> pieces[k].Plain?
    ensures Spans(pieces, base) == []
  {
    if pieces != [] {
      PlainHasNoSpans(pieces[1..], base + 1);
    }
  }

  /** The result of redacting owned segments: their new bytes and which of them a match touched. */
  datatype GovernedOutput = GovernedOutput(outputs: seq<Bytes>, matched: seq<bool>)

  /** Matches at one position; a match is marked and overwritten and the scan goes on behind it. */
  method ScanStep(redactor: Redactor, inputs: seq<array<byte>>, offsets: seq<nat>, matched: array<bool>,
                  ghost segments: seq<Bytes>, segmentIndex: nat, position: nat, compared: nat, ghost spans: seq<Span>)
    returns (r: Result<nat, RedactionError>, charged: nat, index: nat, ghost found: seq<Span>)
    requires redactor.Valid() && Separate(inputs) && Table(inputs, offsets)
    requires OffsetsOf(segments, offsets) && matched.Length == |offsets| == |segments|
    requires position < |Text(inputs)| == |Flatten(segments)|
    requires segmentIndex < |offsets| && offsets[segmentIndex] <= position
    requires Scanning(redactor, segments, offsets, Text(inputs), position, spans, matched[..])
    modifies inputs, matched
    ensures Table(inputs, offsets) && |Text(inputs)| == |Flatten(segments)|
    ensures index < |offsets| && offsets[index] <= position
    ensures charged <= compared + TotalBytes(redactor.patterns)
    ensures r.Err? ==> r.error == RedactionWorkLimitExceeded && charged > MAX_REDACTION_COMPARISON_BYTES
    ensures r.Ok? ==>
      && position < r.value <= |Text(inputs)|
      && Scanning(redactor, segments, offsets, Text(inputs), r.value, found, matched[..])
  {
    hide Redactor.Valid, Scanning, OffsetsOf, Touches, Text;
    ghost var now := Text(inputs);
    found := spans;
    index := AdvanceSegment(offsets, segmentIndex, position);
    var first, second := ReadPair(inputs, offsets, index, position);
    var end;
    end, charged := MatchSegmentedKeys(redactor, inputs, offsets, position, first, second, compared);
    if end.Err? {
      return Err(end.error), charged, index, found;
    }
    if end.value.None? {
      ScanningPlain(redactor, segments, offsets, now, position, spans, matched[..]);
      return Ok(position + 1), charged, index, found;
    }
    var span := Span(position, end.value.value);
    ghost var before := matched[..];
    MarkSegmentRange(segments, offsets, matched, span);
    ScanningMatch(redactor, segments, offsets, now, span, spans, before, matched[..]);
    FillSegmented(inputs, offsets, span.start, span.end, redactor.replacement);
    found := spans + [span];
    r := Ok(span.end);
  }

  /**
   Redacts the segments as one stream, in place. The joined outputs are the length-preserving
   redaction of the joined inputs, cut at the original boundaries. A segment is flagged exactly when
   a match covers one of its bytes or, for an empty segment, straddles it.
   */
  method RedactGovernedSegmentsOwned(redactor: Redactor, inputs: seq<array<byte>>, maxTotalBytes: nat)
    returns (r: Result<GovernedOutput, RedactionError>)
    requires redactor.Valid() && Separate(inputs)
    modifies inputs
    ensures r.Ok? ==>
      var text := old(Text(inputs));
      && r.value.outputs == Contents(inputs)
      && Flatten(r.value.outputs) == Keep(redactor.PatternSet(), redactor.replacement, text)
      && FreeOf(redactor.PatternSet(), Flatten(r.value.outputs))
      && FlagsSay(OffsetsFor(old(Contents(inputs))), old(Contents(inputs)),
                  Spans(Pieces(redactor.PatternSet(), text), 0), r.value.matched)
    ensures r == Err(RedactionInputTooLarge) <==> |old(Text(inputs))| > maxTotalBytes
    ensures
      (|old(Text(inputs))| <= maxTotalBytes
       && |old(Text(inputs))| * TotalBytes(redactor.patterns) <= MAX_REDACTION_COMPARISON_BYTES) ==> r.Ok?
    ensures r.Err? ==> r.error in {RedactionInputTooLarge, RedactionWorkLimitExceeded}
  {
    hide Redactor.ValidIndex, Redactor.ValidPatterns, Scanning, Table, FreeOf, FlagsSay, Keep, Pieces, Spans, Overwrite, Touches, Flatten;
    ghost var segments, text, total := Contents(inputs), Text(inputs), TotalBytes(redactor.patterns);
    var table := SegmentOffsets(inputs, maxTotalBytes);
    if table.Err? {
      return Err(table.error);
    }
    var offsets, totalBytes := table.value.0, table.value.1;
    TableIs(inputs, offsets);
    var matched := new bool[|inputs|](i => false);
    var position: nat, segmentIndex: nat, compared: nat := 0, 0, 0;
    ghost var spans: seq<Span> := [];
    ScanningStarts(redactor, segments, offsets, matched[..]);
    NoneSurvives(redactor, text);
    while redactor.patterns != [] && position < totalBytes
      invariant position <= totalBytes == |text| == |Text(inputs)|
      invariant Table(inputs, offsets)
      invariant |offsets| > 0 ==> segmentIndex < |offsets| && offsets[segmentIndex] <= position
      invariant Scanning(redactor, segments, offsets, Text(inputs), position, spans, matched[..])
      invariant compared <= Work(position, total)
    {
      var next;
      next, compared, segmentIndex, spans :=
        ScanStep(redactor, inputs, offsets, matched, segments, segmentIndex, position, compared, spans);
      WorkUpTo(position, position + 1, |text|, total);
      WorkIsProduct(|text|, total);
      if next.Err? {
        return Err(next.error);
      }
      WorkUpTo(position, position + 1, next.value, total);
      position := next.value;
    }
    ScanningEnds(redactor, segments, offsets, Text(inputs), position, spans, matched[..]);
    r := Ok(GovernedOutput(Contents(inputs), matched[..]));
  }

  lemma NoneSurvives(redactor: Redactor, text: Bytes)
    requires redactor.Valid()
    ensures FreeOf(redactor.PatternSet(), Keep(redactor.PatternSet(), redactor.replacement, text))
  {
    NoPatternSurvives(redactor.PatternSet(), redactor.replacement, text);
  }

  lemma TableIs(inputs: seq<array<byte>>, offsets: seq<nat>)
    requires Table(inputs, offsets)
    ensures OffsetsOf(Contents(inputs), offsets)
    ensures forall i, j :: 0 <= i <= j < |offsets| ==> offsets[i] <= offsets[j]
    ensures |Text(inputs)| > 0 ==> |offsets| > 0
    ensures |offsets| > 0 ==> offsets[0] == 0
    ensures offsets == OffsetsFor(Contents(inputs))
  {
    if |inputs| > 0 {
      assert offsets[0] == |Flatten(Contents(inputs)[..0])|;
    }
  }

  /** Moves on to the segment that owns `position`. */
  method AdvanceSegment(offsets: seq<nat>, segmentIndex: nat, position: nat) returns (index: nat)
    requires segmentIndex < |offsets| && offsets[segmentIndex] <= position
    requires forall i, j :: 0 <= i <= j < |offsets| ==> offsets[i] <= offsets[j]
    ensures index == OwningSegment(offsets, position)
  {
    index := segmentIndex;
    while index + 1 < |offsets| && offsets[index + 1] <= position
      invariant index < |offsets| && offsets[index] <= position
    {
      index := index + 1;
    }
    assert index == OwningSegment(offsets, position);
  }

  /** The byte at `position` and the next one, which may stand in a later segment. */
  method ReadPair(inputs: seq<array<byte>>, offsets: seq<nat>, segmentIndex: nat, position: nat)
    returns (first: byte, second: Option<byte>)
    requires Table(inputs, offsets) && position < |Text(inputs)|
    requires segmentIndex == OwningSegment(offsets, position)
    ensures first == Text(inputs)[position]
    ensures second == if position + 1 < |Text(inputs)| then Some(Text(inputs)[position + 1]) else None
  {
    hide Flatten, OwningSegment;
    ghost var segments := Contents(inputs);
    OwnerHolds(segments, offsets, position);
    var local := position - offsets[segmentIndex];
    first := inputs[segmentIndex][local];
    if local + 1 < inputs[segmentIndex].Length {
      SegmentByte(segments, segmentIndex, local + 1);
      second := Some(inputs[segmentIndex][local + 1]);
    } else {
      second := SegmentedByte(inputs, offsets, position + 1);
    }
  }
}
