/**
 The streaming redactor: chunks go in, everything that no later byte can change comes out, and only
 a proper prefix of some pattern is held back.
 */
module StreamingRedactor {
  import opened Bytes
  import opened Ordering
  import opened Matching
  import opened Redactor

  // ----- What a stream has settled

  /** Some pattern could still be completed by bytes that have not arrived. */
  ghost predicate NeedsMore(patterns: set<Bytes>, t: Bytes) {
    exists p :: p in patterns && t < p
  }

  /** The pieces that are fixed whatever follows `t`. */
  ghost function StablePieces(patterns: set<Bytes>, t: Bytes): seq<Piece>
    decreases |t|
  {
    if t == [] || NeedsMore(patterns, t) then []
    else
      var n := Longest(patterns, t);
      if n == 0 then [Plain(t[0])] + StablePieces(patterns, t[1..])
      else [Redacted(n)] + StablePieces(patterns, t[n..])
  }

  /** The bytes that are not fixed yet. */
  ghost function StableRest(patterns: set<Bytes>, t: Bytes): (rest: Bytes)
    ensures rest == [] || NeedsMore(patterns, rest)
    ensures |rest| <= |t|
    decreases |t|
  {
    if t == [] || NeedsMore(patterns, t) then t
    else
      var n := Longest(patterns, t);
      if n == 0 then StableRest(patterns, t[1..]) else StableRest(patterns, t[n..])
  }

  /** One settled piece at a time. */
  lemma StableStep(patterns: set<Bytes>, t: Bytes)
    ensures t == [] || NeedsMore(patterns, t) ==>
      StablePieces(patterns, t) == [] && StableRest(patterns, t) == t
    ensures t != [] && !NeedsMore(patterns, t) ==>
      var n := Longest(patterns, t);
      var m := if n == 0 then 1 else n;
      && StablePieces(patterns, t)
           == [if n == 0 then Plain(t[0]) else Redacted(n)] + StablePieces(patterns, t[m..])
      && StableRest(patterns, t) == StableRest(patterns, t[m..])
  {
  }

  lemma {:induction false} RenderKeepAppend(a: seq<Piece>, b: seq<Piece>, r: byte)
    ensures RenderKeep(a + b, r) == RenderKeep(a, r) + RenderKeep(b, r)
  {
    if a == [] {
      assert a + b == b;
    } else {
      assert (a + b)[1..] == a[1..] + b;
      RenderKeepAppend(a[1..], b, r);
    }
  }

  /** The settled pieces start the match list of the whole text. */
  lemma {:induction false} StableStartsPieces(patterns: set<Bytes>, t: Bytes)
    ensures Pieces(patterns, t) == StablePieces(patterns, t) + Pieces(patterns, StableRest(patterns, t))
    decreases |t|
  {
    if t != [] && !NeedsMore(patterns, t) {
      var n := Longest(patterns, t);
      StableStartsPieces(patterns, t[if n == 0 then 1 else n..]);
    }
  }

  /** Later bytes neither complete a longer match nor undo one where nothing more is needed. */
  lemma ExtensionKeepsDecision(patterns: set<Bytes>, t: Bytes, x: Bytes)
    requires !NeedsMore(patterns, t)
    ensures !NeedsMore(patterns, t + x)
    ensures Longest(patterns, t + x) == Longest(patterns, t)
  {
    var n := Longest(patterns, t);
    assert (t + x)[..n] == t[..n];
    forall p | p in patterns && p <= t + x
      ensures |p| <= n
    {
      assert |p| > |t| ==> t < p;
      assert |p| <= |t| ==> p <= t;
      LongestCovers(patterns, t, p);
    }
    LongestIs(patterns, t + x, n);
    forall p | p in patterns
      ensures !(t + x < p)
    {
      assert t + x < p ==> t < p;
    }
  }

  /** Settling a text and then more of it is settling the whole at once. */
  lemma {:induction false} StableExtends(patterns: set<Bytes>, t: Bytes, x: Bytes)
    ensures var rest := StableRest(patterns, t);
      && StablePieces(patterns, t + x) == StablePieces(patterns, t) + StablePieces(patterns, rest + x)
      && StableRest(patterns, t + x) == StableRest(patterns, rest + x)
    decreases |t|
  {
    hide StablePieces, StableRest, NeedsMore;
    StableStep(patterns, t);
    if t != [] && !NeedsMore(patterns, t) {
      ExtensionKeepsDecision(patterns, t, x);
      StableStep(patterns, t + x);
      var n := Longest(patterns, t);
      var m := if n == 0 then 1 else n;
      assert (t + x)[m..] == t[m..] + x;
      StableExtends(patterns, t[m..], x);
    }
  }

  /** Redacting what is held back completes the redaction of the whole stream. */
  lemma StreamRefinesWhole(patterns: set<Bytes>, r: byte, t: Bytes)
    ensures RenderKeep(StablePieces(patterns, t), r) + Keep(patterns, r, StableRest(patterns, t))
         == Keep(patterns, r, t)
  {
    StableStartsPieces(patterns, t);
    RenderKeepAppend(StablePieces(patterns, t), Pieces(patterns, StableRest(patterns, t)), r);
  }

  /** Whatever a stream has emitted contains no pattern. */
  lemma EmittedIsFree(patterns: set<Bytes>, r: byte, t: Bytes)
    requires Closed(patterns, r)
    ensures FreeOf(patterns, RenderKeep(StablePieces(patterns, t), r))
  {
    var emitted := RenderKeep(StablePieces(patterns, t), r);
    StreamRefinesWhole(patterns, r, t);
    NoPatternSurvives(patterns, r, t);
    FreePrefix(patterns, Keep(patterns, r, t), |emitted|);
    assert Keep(patterns, r, t)[..|emitted|] == emitted;
  }

  // ----- One decision

  datatype StreamingDecision = Wait | EmitOne | Redact(length: nat)

  ghost function Decision(patterns: set<Bytes>, t: Bytes): StreamingDecision {
    if t == [] || NeedsMore(patterns, t) then Wait
    else if Longest(patterns, t) == 0 then EmitOne
    else Redact(Longest(patterns, t))
  }

  /** The two accumulators after evaluating exactly the patterns in `seen`. */
  ghost predicate Evaluated(seen: set<Bytes>, t: Bytes, longestExact: Option<nat>, needsMore: bool) {
    && longestExact == (if Longest(seen, t) == 0 then None else Some(Longest(seen, t)))
    && needsMore == NeedsMore(seen, t)
  }

  lemma EvaluateOne(seen: set<Bytes>, t: Bytes, p: Bytes)
    requires p != []
    ensures Longest(seen + {p}, t) == if p <= t && |p| > Longest(seen, t) then |p| else Longest(seen, t)
    ensures NeedsMore(seen + {p}, t) <==> NeedsMore(seen, t) || t < p
  {
    var n := Longest(seen, t);
    var m := if p <= t && |p| > n then |p| else n;
    assert p <= t ==> t[..|p|] == p;
    forall q | q in seen + {p} && q <= t
      ensures |q| <= m
    {
      if q in seen {
        LongestCovers(seen, t, q);
      }
    }
    LongestIs(seen + {p}, t, m);
    if t < p {
      assert p in seen + {p};
    }
  }

  method EvaluateStreamingPattern(ghost seen: set<Bytes>, pattern: Bytes, pending: Bytes, compared: nat,
                                  longestExact: Option<nat>, needsMore: bool)
    returns (ok: bool, charged: nat, longest: Option<nat>, needs: bool)
    requires pattern != []
    requires Evaluated(seen, pending, longestExact, needsMore)
    ensures ok ==> Evaluated(seen + {pattern}, pending, longest, needs)
    ensures ok <==> charged <= MAX_REDACTION_COMPARISON_BYTES
    ensures charged - compared == if |pattern| < |pending| then |pattern| else |pending|
  {
    EvaluateOne(seen, pending, pattern);
    longest, needs := longestExact, needsMore;
    var compare := if |pattern| < |pending| then |pattern| else |pending|;
    charged := compared + compare;
    if charged > MAX_REDACTION_COMPARISON_BYTES {
      return false, charged, longest, needs;
    }
    ok := true;
    if pattern[..compare] != pending[..compare] {
      return;
    }
    if |pending| < |pattern| {
      assert pending < pattern;
      needs := true;
      return;
    }
    assert pattern <= pending;
    if longest.None? || |pattern| > longest.value {
      longest := Some(|pattern|);
    }
  }

  /** Entries from `first` up to `i`. */
  ghost function EntrySet(redactor: Redactor, first: nat, i: nat): set<Bytes>
    requires redactor.Valid() && first <= i <= |redactor.prefixes|
  {
    set e | first <= e < i :: redactor.PatternOf(e)
  }

  lemma EntriesOfKey(redactor: Redactor, key: nat, first: nat, i: nat)
    requires redactor.Valid() && first == redactor.KeyStart(key)
    requires first <= i <= |redactor.prefixes|
    requires i == |redactor.prefixes| || redactor.prefixes[i].key != key
    requires forall e :: first <= e < i ==> redactor.prefixes[e].key == key
    ensures EntrySet(redactor, first, i) == redactor.KeyPatterns(key)
  {
    KeysAreSorted(redactor);
    forall p | p in redactor.KeyPatterns(key)
      ensures p in EntrySet(redactor, first, i)
    {
      var k :| 0 <= k < |redactor.patterns| && redactor.patterns[k] == p;
      var e :| 0 <= e < |redactor.prefixes| && redactor.prefixes[e] == PrefixEntry(PatternPrefix(p), k);
      assert redactor.PatternOf(e) == p;
    }
  }

  /** Evaluates the patterns of one key, charging none of them for more than its own length. */
  method EvaluateStreamingKey(redactor: Redactor, ghost seen: set<Bytes>, key: nat, pending: Bytes, compared: nat,
                              longestExact: Option<nat>, needsMore: bool)
    returns (ok: bool, charged: nat, longest: Option<nat>, needs: bool)
    requires redactor.Valid()
    requires Evaluated(seen, pending, longestExact, needsMore)
    ensures ok ==> Evaluated(seen + redactor.KeyPatterns(key), pending, longest, needs)
    ensures compared <= charged <= compared + KeyCharge(redactor, key)
    ensures ok && compared <= MAX_REDACTION_COMPARISON_BYTES ==> charged <= MAX_REDACTION_COMPARISON_BYTES
    ensures !ok ==> charged > MAX_REDACTION_COMPARISON_BYTES
  {
    hide Redactor.ValidPatterns, Redactor.ValidIndex, Redactor.PatternOf, Redactor.Weight, Evaluated;
    longest, needs, charged := longestExact, needsMore, compared;
    ok := true;
    var first := redactor.KeyStart(key);
    var i := first;
    assert seen + EntrySet(redactor, first, first) == seen;
    KeyStartGrows(redactor, key, key + 1);
    while i < |redactor.prefixes| && redactor.prefixes[i].key == key
      invariant ok && first <= i <= redactor.KeyStart(key + 1)
      invariant compared <= charged <= compared + redactor.Weight(i) - redactor.Weight(first)
      invariant compared <= MAX_REDACTION_COMPARISON_BYTES ==> charged <= MAX_REDACTION_COMPARISON_BYTES
      invariant forall e :: first <= e < i ==> redactor.prefixes[e].key == key
      invariant Evaluated(seen + EntrySet(redactor, first, i), pending, longest, needs)
    {
      ghost var before := seen + EntrySet(redactor, first, i);
      WeightStep(redactor, i);
      KeyRangeEnds(redactor, key, i);
      WeightGrows(redactor, i + 1, redactor.KeyStart(key + 1));
      ok, charged, longest, needs :=
        EvaluateStreamingPattern(before, redactor.PatternOf(i), pending, charged, longest, needs);
      if !ok {
        return;
      }
      assert before + {redactor.PatternOf(i)} == seen + EntrySet(redactor, first, i + 1);
      i := i + 1;
    }
    WeightGrows(redactor, i, redactor.KeyStart(key + 1));
    EntriesOfKey(redactor, key, first, i);
  }

  /** Patterns of other keys neither match `t` nor extend it. */
  lemma KeysDecide(redactor: Redactor, t: Bytes, seen: set<Bytes>)
    requires redactor.Valid() && t != []
    requires seen <= redactor.PatternSet()
    requires forall p :: p in redactor.PatternSet() && (p <= t || t < p) ==> p in seen
    ensures Longest(seen, t) == Longest(redactor.PatternSet(), t)
    ensures NeedsMore(seen, t) == NeedsMore(redactor.PatternSet(), t)
  {
    var n := Longest(seen, t);
    forall p | p in redactor.PatternSet() && p <= t
      ensures |p| <= n
    {
      LongestCovers(seen, t, p);
    }
    LongestIs(redactor.PatternSet(), t, n);
  }

  lemma PairKeyDecides(redactor: Redactor, t: Bytes)
    requires redactor.Valid() && |t| > 1
    ensures var seen := redactor.KeyPatterns(PairKey(t[0], t[1])) + redactor.KeyPatterns(t[0]);
      && Longest(seen, t) == Longest(redactor.PatternSet(), t)
      && NeedsMore(seen, t) == NeedsMore(redactor.PatternSet(), t)
  {
    var seen := redactor.KeyPatterns(PairKey(t[0], t[1])) + redactor.KeyPatterns(t[0]);
    forall p | p in redactor.PatternSet() && (p <= t || t < p)
      ensures p in seen
    {
      assert p[0] == t[0];
      if |p| > 1 {
        assert p[1] == t[1];
      }
    }
    KeysDecide(redactor, t, seen);
  }

  // ----- The stream

  class StreamingRedactor {
    const redactor: Redactor
    var pending: Bytes
    var cursor: nat
    var comparedBytes: nat
    /** Everything accepted and everything returned so far, and how many chunks were accepted. */
    ghost var consumed: Bytes
    ghost var emitted: Bytes
    ghost var pushes: nat
    /** Whether the work budget has run out. */
    ghost var failed: bool

    /**
     Without a failure both what was emitted and what is pending are functions of the bytes
     consumed, so they do not depend on how those bytes were cut into chunks. Every decision so far
     settled a byte or was the one wait of its chunk.
     */
    ghost predicate Valid()
      reads this
    {
      && redactor.Valid()
      && cursor <= |pending|
      && (redactor.patterns == [] ==> !failed)
      && (!failed ==>
            && emitted == RenderKeep(StablePieces(redactor.PatternSet(), consumed), redactor.replacement)
            && pending[cursor..] == StableRest(redactor.PatternSet(), consumed)
            && comparedBytes <= MAX_REDACTION_COMPARISON_BYTES
            && comparedBytes <= Work(|emitted| + pushes, TotalBytes(redactor.patterns)))
    }

    /** A chunk that together with what is held back exceeds the buffer. */
    ghost predicate TooLarge(input: Bytes)
      requires cursor <= |pending|
      reads this
    {
      if redactor.patterns == [] then |input| > MAX_REDACTION_INPUT_BYTES
      else |pending| - cursor + |input| > MAX_REDACTION_INPUT_BYTES + redactor.MaxPatternLen()
    }

    constructor (redactor: Redactor)
      requires redactor.Valid()
      ensures Valid() && this.redactor == redactor
      ensures !failed && consumed == [] && emitted == [] && pushes == 0
    {
      this.redactor := redactor;
      pending, cursor, comparedBytes := [], 0, 0;
      consumed, emitted, pushes, failed := [], [], 0, false;
    }

    /** Drops what was already decided from the front of the buffer. */
    method Compact()
      requires cursor <= |pending|
      modifies this`pending, this`cursor
      ensures cursor == 0 && pending == old(pending[cursor..])
    {
      if cursor > 0 {
        pending := pending[cursor..];
        cursor := 0;
      }
    }

    /** Decides the next piece of the buffer, or to wait because a pattern may still complete. */
    method NextDecision() returns (r: Result<StreamingDecision, RedactionError>)
      requires redactor.Valid() && cursor <= |pending|
      modifies this`comparedBytes
      ensures r.Ok? ==> r.value == Decision(redactor.PatternSet(), pending[cursor..])
      ensures r.Err? ==> r.error == RedactionWorkLimitExceeded && comparedBytes > MAX_REDACTION_COMPARISON_BYTES
      ensures r.Ok? && old(comparedBytes) <= MAX_REDACTION_COMPARISON_BYTES ==>
        comparedBytes <= MAX_REDACTION_COMPARISON_BYTES
      ensures old(comparedBytes) <= comparedBytes <= old(comparedBytes) + TotalBytes(redactor.patterns)
    {
      hide Redactor.ValidPatterns, Redactor.ValidIndex, Evaluated, KeyCharge;
      var t := pending[cursor..];
      if t == [] {
        return Ok(Wait);
      }
      if redactor.patterns == [] {
        assert redactor.PatternSet() == {};
        return Ok(EmitOne);
      }
      var longest: Option<nat>, needs := None, false;
      ghost var seen: set<Bytes> := {};
      assert Evaluated({}, t, longest, needs) by {
        NothingEvaluated(t);
      }
      var ok: bool, charged: nat;
      if |t| > 1 {
        var double := PairKey(t[0], t[1]);
        TwoKeysCharge(redactor, t[0], double);
        ok, charged, longest, needs :=
          EvaluateStreamingKey(redactor, {}, double, t, comparedBytes, longest, needs);
        comparedBytes := charged;
        if !ok {
          return Err(RedactionWorkLimitExceeded);
        }
        assert {} + redactor.KeyPatterns(double) == redactor.KeyPatterns(double);
        ok, charged, longest, needs :=
          EvaluateStreamingKey(redactor, redactor.KeyPatterns(double), t[0], t, comparedBytes, longest, needs);
        comparedBytes := charged;
        if !ok {
          return Err(RedactionWorkLimitExceeded);
        }
        seen := redactor.KeyPatterns(double) + redactor.KeyPatterns(t[0]);
        PairKeyDecides(redactor, t);
      } else {
        ok, longest, needs, seen := EvaluateSingle(t);
        if !ok {
          return Err(RedactionWorkLimitExceeded);
        }
        KeysDecide(redactor, t, seen);
      }
      EvaluatedDecides(redactor.PatternSet(), seen, t, longest, needs);
      r := Ok(if needs then Wait else if longest.Some? then Redact(longest.value) else EmitOne);
    }

    /** With one byte pending every pattern that starts with it is evaluated. */
    method EvaluateSingle(t: Bytes)
      returns (ok: bool, longest: Option<nat>, needs: bool, ghost seen: set<Bytes>)
      requires redactor.Valid() && |t| == 1
      modifies this`comparedBytes
      ensures old(comparedBytes) <= comparedBytes <= old(comparedBytes) + TotalBytes(redactor.patterns)
      ensures ok && old(comparedBytes) <= MAX_REDACTION_COMPARISON_BYTES ==>
        comparedBytes <= MAX_REDACTION_COMPARISON_BYTES
      ensures !ok ==> comparedBytes > MAX_REDACTION_COMPARISON_BYTES
      ensures ok ==>
        && seen <= redactor.PatternSet()
        && (forall p :: p in redactor.PatternSet() && (p <= t || t < p) ==> p in seen)
        && Evaluated(seen, t, longest, needs)
    {
      hide Evaluated, Redactor.ValidIndex;
      ok, longest, needs, seen := true, None, false, {};
      assert Evaluated({}, t, longest, needs) by {
        NothingEvaluated(t);
      }
      for i := 0 to |redactor.patterns|
        invariant ok && Evaluated(seen, t, longest, needs)
        invariant old(comparedBytes) <= comparedBytes
          <= old(comparedBytes) + TotalBytes(redactor.patterns[..i]) <= old(comparedBytes) + TotalBytes(redactor.patterns)
        invariant old(comparedBytes) <= MAX_REDACTION_COMPARISON_BYTES ==>
          comparedBytes <= MAX_REDACTION_COMPARISON_BYTES
        invariant seen == set k | 0 <= k < i && t <= redactor.patterns[k] :: redactor.patterns[k]
      {
        var pattern := redactor.patterns[i];
        TotalStep(redactor.patterns, i);
        assert pattern in redactor.PatternSet();
        if pattern[0] == t[0] {
          var charged: nat;
          ok, charged, longest, needs :=
            EvaluateStreamingPattern(seen, pattern, t, comparedBytes, longest, needs);
          comparedBytes := charged;
          if !ok {
            return;
          }
          seen := seen + {pattern};
        }
      }
    }

    /** Emits every decided piece of the buffer and stops at the first undecided one. */
    method DrainStable() returns (r: Result<Bytes, RedactionError>)
      requires redactor.Valid() && cursor == 0
      requires |pending| <= MAX_REDACTION_INPUT_BYTES + redactor.MaxPatternLen()
      modifies this`cursor, this`comparedBytes
      ensures cursor <= |pending|
      ensures r.Ok? ==>
        && r.value == RenderKeep(StablePieces(redactor.PatternSet(), pending), redactor.replacement)
        && pending[cursor..] == StableRest(redactor.PatternSet(), pending)
      ensures r.Ok? && old(comparedBytes) <= MAX_REDACTION_COMPARISON_BYTES ==>
        comparedBytes <= MAX_REDACTION_COMPARISON_BYTES
      ensures r.Ok? ==> comparedBytes <= old(comparedBytes) + Work(|r.value| + 1, TotalBytes(redactor.patterns))
      ensures r.Err? ==>
        && r.error == RedactionWorkLimitExceeded
        && MAX_REDACTION_COMPARISON_BYTES < comparedBytes
             <= old(comparedBytes) + Work(|pending|, TotalBytes(redactor.patterns))
    {
      hide Redactor.Valid, Decision, Settling;
      ghost var total := TotalBytes(redactor.patterns);
      ghost var patterns, b := redactor.PatternSet(), redactor.replacement;
      var output: Bytes := [];
      var maxOutput := MAX_REDACTION_INPUT_BYTES + redactor.MaxPatternLen();
      SettlingStarts(patterns, b, pending);
      assert pending[0..] == pending;
      while cursor < |pending|
        invariant cursor <= |pending| && |output| == cursor
        invariant Settling(patterns, b, pending, pending[cursor..], output)
        invariant comparedBytes <= old(comparedBytes) + Work(cursor, total)
        invariant old(comparedBytes) <= MAX_REDACTION_COMPARISON_BYTES ==>
          comparedBytes <= MAX_REDACTION_COMPARISON_BYTES
        decreases |pending| - cursor
      {
        ghost var t := pending[cursor..];
        SettlingStep(patterns, b, pending, t, output);
        var decision := NextDecision();
        WorkUpTo(cursor, cursor + 1, |pending|, total);
        if decision.Err? {
          return Err(decision.error);
        }
        match decision.value {
          case Wait =>
            break;
          case EmitOne =>
            if |output| + 1 > maxOutput {
              return Err(RedactionOutputTooLarge);
            }
            assert t[1..] == pending[cursor + 1..];
            output := output + [pending[cursor]];
            cursor := cursor + 1;
          case Redact(length) =>
            if |output| + length > maxOutput {
              return Err(RedactionOutputTooLarge);
            }
            WorkUpTo(cursor, cursor + 1, cursor + length, total);
            assert t[length..] == pending[cursor + length..];
            output := output + Fill(redactor.replacement, length);
            cursor := cursor + length;
        }
      }
      SettlingStep(patterns, b, pending, pending[cursor..], output);
      WorkUpTo(cursor, cursor, cursor + 1, total);
      r := Ok(output);
    }

    /**
     Accepts one chunk. The output extends the redaction of everything consumed so far. A stream fails
     only on a chunk that does not fit the buffer, which changes nothing, and on work beyond the
     budget, which needs more than the budget's worth of consumed bytes and chunks times pattern bytes.
     A stream whose budget ran out has lost output and promises no more than its buffer.
     */
    method Push(input: Bytes) returns (r: Result<Bytes, RedactionError>)
      requires Valid()
      modifies this
      ensures Valid() && failed == (old(failed) || r == Err(RedactionWorkLimitExceeded))
      ensures r.Ok? ==>
        && consumed == old(consumed) + input
        && emitted == old(emitted) + r.value
        && pushes == old(pushes) + 1
        && (var buffer := old(pending[cursor..]) + input;
            && r.value == RenderKeep(StablePieces(redactor.PatternSet(), buffer), redactor.replacement)
            && pending[cursor..] == StableRest(redactor.PatternSet(), buffer))
      ensures r.Ok? && !failed ==> FreeOf(redactor.PatternSet(), emitted)
      ensures r.Ok? && redactor.patterns != [] ==>
        |pending| - cursor < redactor.MaxPatternLen()
        && exists p :: p in redactor.PatternSet() && pending[cursor..] < p
      ensures r == Err(RedactionInputTooLarge) <==> old(TooLarge(input))
      ensures r == Err(RedactionInputTooLarge) ==>
        consumed == old(consumed) && emitted == old(emitted) && pushes == old(pushes)
      ensures !old(failed) && |input| <= MAX_REDACTION_INPUT_BYTES ==> !old(TooLarge(input))
      ensures r == Err(RedactionWorkLimitExceeded) && !old(failed) ==>
        (|old(consumed)| + |input| + old(pushes)) * TotalBytes(redactor.patterns) > MAX_REDACTION_COMPARISON_BYTES
      ensures
        (!old(failed) && |input| <= MAX_REDACTION_INPUT_BYTES
         && (|old(consumed)| + |input| + old(pushes)) * TotalBytes(redactor.patterns) <= MAX_REDACTION_COMPARISON_BYTES)
        ==> r.Ok?
      ensures r.Err? ==> r.error in {RedactionInputTooLarge, RedactionWorkLimitExceeded}
    {
      hide Redactor.ValidIndex, StablePieces, StableRest, RenderKeep, FreeOf, Work;
      ghost var patterns, b := redactor.PatternSet(), redactor.replacement;
      ghost var total := TotalBytes(redactor.patterns);
      ghost var buffer := pending[cursor..] + input;
      HeldBack(redactor, consumed);
      HeldBack(redactor, buffer);
      if !failed {
        PushContinues(patterns, b, consumed, input);
        PushWork(redactor, consumed, input, pushes);
      }
      if redactor.patterns == [] {
        if |input| > MAX_REDACTION_INPUT_BYTES {
          return Err(RedactionInputTooLarge);
        }
        assert patterns == {};
        NothingHeldBack(b, consumed);
        NothingHeldBack(b, consumed + input);
        NothingHeldBack(b, input);
        assert buffer == input;
        consumed, emitted, pushes := consumed + input, emitted + input, pushes + 1;
        return Ok(input);
      }
      Compact();
      assert pending[0..] == pending;
      var maximum := if redactor.MaxPatternLen() > 1 then redactor.MaxPatternLen() else 1;
      if |pending| + |input| > MAX_REDACTION_INPUT_BYTES + maximum {
        return Err(RedactionInputTooLarge);
      }
      pending := pending + input;
      r := DrainStable();
      consumed := consumed + input;
      if r.Err? {
        failed := true;
        return;
      }
      emitted := emitted + r.value;
      pushes := pushes + 1;
    }

    /**
     The undecided tail. What was emitted followed by the redaction of this tail is the redaction of
     the whole stream.
     */
    method IntoPending() returns (tail: Bytes)
      requires Valid()
      modifies this
      ensures Valid() && failed == old(failed)
      ensures consumed == old(consumed) && emitted == old(emitted) && pushes == old(pushes)
      ensures cursor == 0 && tail == pending == old(pending[cursor..])
      ensures !failed ==>
        emitted + Keep(redactor.PatternSet(), redactor.replacement, tail)
          == Keep(redactor.PatternSet(), redactor.replacement, consumed)
    {
      StreamRefinesWhole(redactor.PatternSet(), redactor.replacement, consumed);
      Compact();
      assert pending[0..] == pending;
      tail := pending;
    }
  }

  lemma NothingEvaluated(t: Bytes)
    ensures Evaluated({}, t, None, false)
  {
  }

  lemma EvaluatedDecides(patterns: set<Bytes>, seen: set<Bytes>, t: Bytes, longest: Option<nat>, needs: bool)
    requires t != [] && Evaluated(seen, t, longest, needs)
    requires Longest(seen, t) == Longest(patterns, t)
    requires NeedsMore(seen, t) == NeedsMore(patterns, t)
    ensures Decision(patterns, t)
         == if needs then Wait else if longest.Some? then Redact(longest.value) else EmitOne
  {
  }

  /** `output` renders the settled pieces of `whole` that come before its suffix `t`. */
  ghost predicate Settling(patterns: set<Bytes>, b: byte, whole: Bytes, t: Bytes, output: Bytes) {
    && output + RenderKeep(StablePieces(patterns, t), b) == RenderKeep(StablePieces(patterns, whole), b)
    && StableRest(patterns, t) == StableRest(patterns, whole)
  }

  lemma SettlingStarts(patterns: set<Bytes>, b: byte, whole: Bytes)
    ensures Settling(patterns, b, whole, whole, [])
  {
  }

  /** How one decision settles the next piece, or finds nothing more to settle. */
  lemma SettlingStep(patterns: set<Bytes>, b: byte, whole: Bytes, t: Bytes, output: Bytes)
    requires Settling(patterns, b, whole, t, output)
    ensures t == [] ==> Decision(patterns, t) == Wait
    ensures match Decision(patterns, t)
      case Wait =>
        && output == RenderKeep(StablePieces(patterns, whole), b)
        && t == StableRest(patterns, whole)
      case EmitOne => t != [] && Settling(patterns, b, whole, t[1..], output + [t[0]])
      case Redact(n) => 0 < n <= |t| && Settling(patterns, b, whole, t[n..], output + Fill(b, n))
  {
    hide StablePieces, StableRest;
    StableStep(patterns, t);
    match Decision(patterns, t) {
      case Wait =>
      case EmitOne =>
        var rest := RenderKeep(StablePieces(patterns, t[1..]), b);
        assert output + ([t[0]] + rest) == output + [t[0]] + rest;
      case Redact(n) =>
        var rest := RenderKeep(StablePieces(patterns, t[n..]), b);
        assert output + (Fill(b, n) + rest) == output + Fill(b, n) + rest;
    }
  }

  /** Only a proper prefix of some pattern is ever held back. */
  lemma HeldBack(redactor: Redactor, consumed: Bytes)
    requires redactor.ValidPatterns()
    ensures redactor.patterns != [] ==>
      var rest := StableRest(redactor.PatternSet(), consumed);
      |rest| < redactor.MaxPatternLen() && exists p :: p in redactor.PatternSet() && rest < p
  {
    if redactor.patterns != [] {
      var rest := StableRest(redactor.PatternSet(), consumed);
      var longest := redactor.patterns[0];
      assert longest in redactor.PatternSet();
      assert rest == [] ==> rest < longest;
      var p :| p in redactor.PatternSet() && rest < p;
      var k :| 0 <= k < |redactor.patterns| && redactor.patterns[k] == p;
      assert |redactor.patterns[0]| >= |redactor.patterns[k]|;
    }
  }

  /** Every byte is either settled or held back. */
  lemma SettledLength(patterns: set<Bytes>, b: byte, t: Bytes)
    ensures |RenderKeep(StablePieces(patterns, t), b)| + |StableRest(patterns, t)| == |t|
  {
    StreamRefinesWhole(patterns, b, t);
    KeepIsBytewise(patterns, b, t);
    KeepIsBytewise(patterns, b, StableRest(patterns, t));
  }

  /** What accepting a chunk adds to the output, and that no pattern occurs in all of it. */
  lemma PushContinues(patterns: set<Bytes>, b: byte, consumed: Bytes, input: Bytes)
    requires Closed(patterns, b)
    ensures var buffer := StableRest(patterns, consumed) + input;
      && RenderKeep(StablePieces(patterns, consumed + input), b)
           == RenderKeep(StablePieces(patterns, consumed), b) + RenderKeep(StablePieces(patterns, buffer), b)
      && StableRest(patterns, consumed + input) == StableRest(patterns, buffer)
    ensures FreeOf(patterns, RenderKeep(StablePieces(patterns, consumed + input), b))
  {
    StableExtends(patterns, consumed, input);
    RenderKeepAppend(StablePieces(patterns, consumed),
                     StablePieces(patterns, StableRest(patterns, consumed) + input), b);
    EmittedIsFree(patterns, b, consumed + input);
  }

  /** Work adds up over chunks: one charge for each settled byte and one for each wait. */
  lemma PushWork(redactor: Redactor, consumed: Bytes, input: Bytes, pushes: nat)
    ensures var patterns, b, total := redactor.PatternSet(), redactor.replacement, TotalBytes(redactor.patterns);
      var emitted := |RenderKeep(StablePieces(patterns, consumed), b)|;
      var buffer := StableRest(patterns, consumed) + input;
      var more := |RenderKeep(StablePieces(patterns, buffer), b)|;
      && Work(emitted + pushes, total) + Work(more + 1, total) == Work(emitted + more + (pushes + 1), total)
      && Work(emitted + pushes, total) + Work(|buffer|, total) == (|consumed| + |input| + pushes) * total
      && Work(emitted + pushes, total) <= Work(emitted + |input| + (pushes + 1), total)
  {
    hide StablePieces, StableRest, RenderKeep, Work;
    var patterns, b, total := redactor.PatternSet(), redactor.replacement, TotalBytes(redactor.patterns);
    var emitted := |RenderKeep(StablePieces(patterns, consumed), b)|;
    var buffer := StableRest(patterns, consumed) + input;
    var more := |RenderKeep(StablePieces(patterns, buffer), b)|;
    SettledLength(patterns, b, consumed);
    WorkAdds(emitted + pushes, more + 1, total);
    WorkAdds(emitted + pushes, |buffer|, total);
    WorkAdds(emitted + pushes, |input| + 1, total);
    WorkIsProduct(emitted + pushes + |buffer|, total);
  }

  lemma TotalStep(patterns: seq<Bytes>, i: nat)
    requires i < |patterns|
    ensures TotalBytes(patterns[..i]) + |patterns[i]| == TotalBytes(patterns[..i + 1]) <= TotalBytes(patterns)
  {
    var length := (p: Bytes) => |p|;
    assert patterns[..i + 1] == patterns[..i] + [patterns[i]];
    SumAppend(length, patterns[..i], [patterns[i]]);
    assert patterns == patterns[..i + 1] + patterns[i + 1..];
    SumAppend(length, patterns[..i + 1], patterns[i + 1..]);
  }

  lemma {:induction false} NothingHeldBack(b: byte, t: Bytes)
    ensures StableRest({}, t) == [] && RenderKeep(StablePieces({}, t), b) == t
  {
    NoPatternsNoChange(b, t);
    StreamRefinesWhole({}, b, t);
    assert Keep({}, b, []) == [];
  }

  // ----- Every way of cutting a stream

  /** Outputs and final tail of pushing `chunks` one after another onto a stream that holds `held`. */
  ghost function Stream(patterns: set<Bytes>, b: byte, held: Bytes, chunks: seq<Bytes>): (Bytes, Bytes)
    decreases |chunks|
  {
    if chunks == [] then ([], held)
    else
      var buffer := held + chunks[0];
      var (later, tail) := Stream(patterns, b, StableRest(patterns, buffer), chunks[1..]);
      (RenderKeep(StablePieces(patterns, buffer), b) + later, tail)
  }

  /** The joined outputs and the tail depend only on the joined chunks. */
  lemma {:induction false} CutsDoNotMatter(patterns: set<Bytes>, b: byte, held: Bytes, chunks: seq<Bytes>)
    requires StableRest(patterns, held) == held && StablePieces(patterns, held) == []
    ensures var whole := held + Flatten(chunks);
      Stream(patterns, b, held, chunks)
        == (RenderKeep(StablePieces(patterns, whole), b), StableRest(patterns, whole))
    decreases |chunks|
  {
    if chunks == [] {
      assert held + Flatten(chunks) == held;
    } else {
      var buffer := held + chunks[0];
      var rest := StableRest(patterns, buffer);
      StableStep(patterns, rest);
      CutsDoNotMatter(patterns, b, rest, chunks[1..]);
      assert held + Flatten(chunks) == buffer + Flatten(chunks[1..]);
      StableExtends(patterns, buffer, Flatten(chunks[1..]));
      RenderKeepAppend(StablePieces(patterns, buffer), StablePieces(patterns, rest + Flatten(chunks[1..])), b);
    }
  }

  /** However a stream is cut, its outputs followed by its redacted tail are the redacted stream. */
  lemma ChunkedStreamRefinesWhole(patterns: set<Bytes>, b: byte, chunks: seq<Bytes>)
    ensures var (emitted, tail) := Stream(patterns, b, [], chunks);
      emitted + Keep(patterns, b, tail) == Keep(patterns, b, Flatten(chunks))
  {
    CutsDoNotMatter(patterns, b, [], chunks);
    assert [] + Flatten(chunks) == Flatten(chunks);
    StreamRefinesWhole(patterns, b, Flatten(chunks));
  }

  lemma LessWork(a: nat, b: nat, total: nat)
    requires a <= b
    ensures a * total <= b * total
  {
  }

  lemma WholeStream(redactor: Redactor, chunks: seq<Bytes>)
    requires redactor.Valid()
    ensures var patterns, b, whole := redactor.PatternSet(), redactor.replacement, Flatten(chunks);
      && Stream(patterns, b, [], chunks) == (RenderKeep(StablePieces(patterns, whole), b), StableRest(patterns, whole))
      && FreeOf(patterns, RenderKeep(StablePieces(patterns, whole), b))
  {
    hide Redactor.ValidIndex;
    var patterns, b := redactor.PatternSet(), redactor.replacement;
    CutsDoNotMatter(patterns, b, [], chunks);
    assert [] + Flatten(chunks) == Flatten(chunks);
    EmittedIsFree(patterns, b, Flatten(chunks));
  }

  /**
   A whole stream: every chunk is pushed as it arrives and the tail taken at the end. The result is that
   of any other cutting, and the stream succeeds whenever its chunks fit the input limit and its bytes
   and chunks together, times the pattern bytes, fit the budget.
   */
  method PushAll(redactor: Redactor, chunks: seq<Bytes>) returns (r: Result<(Bytes, Bytes), RedactionError>)
    requires redactor.Valid()
    ensures r.Ok? ==>
      var whole := Flatten(chunks);
      && r.value == Stream(redactor.PatternSet(), redactor.replacement, [], chunks)
      && r.value.0 + Keep(redactor.PatternSet(), redactor.replacement, r.value.1)
           == Keep(redactor.PatternSet(), redactor.replacement, whole)
      && FreeOf(redactor.PatternSet(), r.value.0)
    ensures
      ((forall i :: 0 <= i < |chunks| ==> |chunks[i]| <= MAX_REDACTION_INPUT_BYTES)
       && (|Flatten(chunks)| + |chunks|) * TotalBytes(redactor.patterns) <= MAX_REDACTION_COMPARISON_BYTES)
      ==> r.Ok?
  {
    hide StablePieces, StableRest, RenderKeep, FreeOf, Keep, Stream, Work, Redactor.Valid;
    var stream := new StreamingRedactor(redactor);
    var output: Bytes := [];
    for i := 0 to |chunks|
      invariant fresh(stream) && stream.Valid() && stream.redactor == redactor && !stream.failed
      invariant stream.consumed == Flatten(chunks[..i]) && stream.pushes == i && stream.emitted == output
    {
      FlattenPrefix(chunks, i);
      FlattenPrefix(chunks, i + 1);
      LessWork(|Flatten(chunks[..i + 1])| + i, |Flatten(chunks)| + |chunks|, TotalBytes(redactor.patterns));
      var pushed := stream.Push(chunks[i]);
      if pushed.Err? {
        return Err(pushed.error);
      }
      output := output + pushed.value;
    }
    assert chunks[..|chunks|] == chunks;
    WholeStream(redactor, chunks);
    var tail := stream.IntoPending();
    r := Ok((output, tail));
  }
}
