/**
 Reference meaning of exact-value redaction.

 A scanner walks the input from the left. Where some pattern is a prefix of what is left, the
 longest such pattern is one redacted piece; otherwise the first byte is a plain piece. One match
 list has two renderings: `Keep` overwrites every redacted byte and so preserves length, while
 `Collapse` writes one replacement byte for the whole match.
 */
module Matching {
  import opened Bytes

  datatype Piece = Plain(b: byte) | Redacted(length: nat)

  datatype Span = Span(start: nat, end: nat)

  /** The largest nonzero length not above `n` whose prefix of `t` is a pattern, or zero. */
  function LongestUpTo(patterns: set<Bytes>, t: Bytes, n: nat): (r: nat)
    requires n <= |t|
    ensures r <= n
    ensures r > 0 ==> t[..r] in patterns
    ensures forall m :: r < m <= n ==> t[..m] !in patterns
  {
    if n == 0 then 0
    else if t[..n] in patterns then n
    else LongestUpTo(patterns, t, n - 1)
  }

  /** Length of the longest nonempty pattern that `t` starts with, or zero. */
  function Longest(patterns: set<Bytes>, t: Bytes): (r: nat)
    ensures r <= |t|
    ensures r > 0 ==> t[..r] in patterns
    ensures forall m :: r < m <= |t| ==> t[..m] !in patterns
  {
    LongestUpTo(patterns, t, |t|)
  }

  /** `Longest` is the only value with its three properties. */
  lemma LongestIs(patterns: set<Bytes>, t: Bytes, n: nat)
    requires n <= |t|
    requires n > 0 ==> t[..n] in patterns
    requires forall p :: p in patterns && p <= t ==> |p| <= n
    ensures Longest(patterns, t) == n
  {
    var r := Longest(patterns, t);
    assert t[..r] <= t;
  }

  lemma LongestCovers(patterns: set<Bytes>, t: Bytes, p: Bytes)
    requires p in patterns
    ensures p <= t ==> |p| <= Longest(patterns, t)
  {
    assert p <= t ==> t[..|p|] == p;
  }

  function Pieces(patterns: set<Bytes>, t: Bytes): seq<Piece>
    decreases |t|
  {
    if t == [] then []
    else
      var n := Longest(patterns, t);
      if n == 0 then [Plain(t[0])] + Pieces(patterns, t[1..])
      else [Redacted(n)] + Pieces(patterns, t[n..])
  }

  function RenderKeep(pieces: seq<Piece>, replacement: byte): Bytes {
    if pieces == [] then []
    else
      (match pieces[0]
       case Plain(b) => [b]
       case Redacted(n) => Fill(replacement, n))
      + RenderKeep(pieces[1..], replacement)
  }

  function RenderCollapse(pieces: seq<Piece>, replacement: byte): Bytes {
    if pieces == [] then []
    else
      [match pieces[0]
       case Plain(b) => b
       case Redacted(n) => replacement]
      + RenderCollapse(pieces[1..], replacement)
  }

  function Spans(pieces: seq<Piece>, base: nat): seq<Span> {
    if pieces == [] then []
    else
      match pieces[0]
      case Plain(b) => Spans(pieces[1..], base + 1)
      case Redacted(n) => [Span(base, base + n)] + Spans(pieces[1..], base + n)
  }

  function Keep(patterns: set<Bytes>, replacement: byte, t: Bytes): Bytes {
    RenderKeep(Pieces(patterns, t), replacement)
  }

  function Collapse(patterns: set<Bytes>, replacement: byte, t: Bytes): Bytes {
    RenderCollapse(Pieces(patterns, t), replacement)
  }

  ghost predicate Occurs(pattern: Bytes, text: Bytes) {
    exists q: nat :: q <= |text| && pattern <= text[q..]
  }

  ghost predicate FreeOf(patterns: set<Bytes>, text: Bytes) {
    forall p :: p in patterns ==> !Occurs(p, text)
  }

  /** What every accepted pattern set and its replacement byte satisfy. */
  ghost predicate Closed(patterns: set<Bytes>, replacement: byte) {
    forall p :: p in patterns ==> p != [] && replacement !in p
  }

  // ----- One scanner step

  lemma KeepStep(patterns: set<Bytes>, r: byte, t: Bytes)
    requires t != []
    ensures var n := Longest(patterns, t);
      Keep(patterns, r, t) == if n == 0 then [t[0]] + Keep(patterns, r, t[1..])
                              else Fill(r, n) + Keep(patterns, r, t[n..])
  {
  }

  lemma CollapseStep(patterns: set<Bytes>, r: byte, t: Bytes)
    requires t != []
    ensures var n := Longest(patterns, t);
      Collapse(patterns, r, t) == if n == 0 then [t[0]] + Collapse(patterns, r, t[1..])
                                  else [r] + Collapse(patterns, r, t[n..])
  {
  }

  /** A stretch where no pattern starts is a run of plain pieces. */
  lemma {:induction false} SkipPlain(patterns: set<Bytes>, t: Bytes, a: nat, b: nat)
    requires a <= b <= |t|
    requires forall q :: a <= q < b ==> Longest(patterns, t[q..]) == 0
    ensures Pieces(patterns, t[a..]) == seq(b - a, i requires 0 <= i < b - a => Plain(t[a + i])) + Pieces(patterns, t[b..])
    decreases b - a
  {
    if a < b {
      assert t[a..][1..] == t[a + 1..];
      SkipPlain(patterns, t, a + 1, b);
      assert seq(b - a, i requires 0 <= i < b - a => Plain(t[a + i]))
        == [Plain(t[a])] + seq(b - a - 1, i requires 0 <= i < b - a - 1 => Plain(t[a + 1 + i]));
    }
  }

  lemma {:induction false} RenderPlain(t: Bytes, r: byte, rest: seq<Piece>)
    ensures var plain := seq(|t|, i requires 0 <= i < |t| => Plain(t[i]));
      && RenderKeep(plain + rest, r) == t + RenderKeep(rest, r)
      && RenderCollapse(plain + rest, r) == t + RenderCollapse(rest, r)
    decreases |t|
  {
    var plain := seq(|t|, i requires 0 <= i < |t| => Plain(t[i]));
    if t == [] {
      assert plain + rest == rest;
    } else {
      RenderPlain(t[1..], r, rest);
      assert (plain + rest)[1..] == seq(|t| - 1, i requires 0 <= i < |t| - 1 => Plain(t[1..][i])) + rest;
      assert t == [t[0]] + t[1..];
    }
  }

  /** Both renderings copy a match-free stretch unchanged. */
  lemma SkipRenders(patterns: set<Bytes>, r: byte, t: Bytes, a: nat, b: nat)
    requires a <= b <= |t|
    requires forall q :: a <= q < b ==> Longest(patterns, t[q..]) == 0
    ensures Keep(patterns, r, t[a..]) == t[a..b] + Keep(patterns, r, t[b..])
    ensures Collapse(patterns, r, t[a..]) == t[a..b] + Collapse(patterns, r, t[b..])
  {
    SkipPlain(patterns, t, a, b);
    RenderPlain(t[a..b], r, Pieces(patterns, t[b..]));
    assert seq(b - a, i requires 0 <= i < b - a => Plain(t[a + i]))
      == seq(|t[a..b]|, i requires 0 <= i < |t[a..b]| => Plain(t[a..b][i]));
  }

  // ----- What the renderings look like

  /** `Keep` preserves length and every byte it does not overwrite. */
  lemma {:induction false} KeepIsBytewise(patterns: set<Bytes>, r: byte, t: Bytes)
    ensures |Keep(patterns, r, t)| == |t|
    ensures forall i :: 0 <= i < |t| ==> Keep(patterns, r, t)[i] in {r, t[i]}
    decreases |t|
  {
    if t != [] {
      KeepStep(patterns, r, t);
      var n := Longest(patterns, t);
      var m := if n == 0 then 1 else n;
      KeepIsBytewise(patterns, r, t[m..]);
      forall i | 0 <= i < |t|
        ensures Keep(patterns, r, t)[i] in {r, t[i]}
      {
        if i >= m {
          assert Keep(patterns, r, t)[i] == Keep(patterns, r, t[m..])[i - m];
          assert t[i] == t[m..][i - m];
        }
      }
    }
  }

  lemma {:induction false} CollapseNeverGrows(patterns: set<Bytes>, r: byte, t: Bytes)
    ensures |Collapse(patterns, r, t)| <= |t|
    decreases |t|
  {
    if t != [] {
      CollapseStep(patterns, r, t);
      var n := Longest(patterns, t);
      CollapseNeverGrows(patterns, r, t[if n == 0 then 1 else n..]);
    }
  }

  /** Where the collapsed output does not show the replacement byte it still shows the input. */
  lemma {:induction false} CollapsePrefixIsInput(patterns: set<Bytes>, r: byte, t: Bytes, n: nat)
    requires n <= |Collapse(patterns, r, t)|
    requires r !in Collapse(patterns, r, t)[..n]
    ensures n <= |t| && Collapse(patterns, r, t)[..n] == t[..n]
    decreases |t|
  {
    if t != [] && n > 0 {
      CollapseStep(patterns, r, t);
      var c := Collapse(patterns, r, t);
      assert c[0] == c[..n][0];
      assert Longest(patterns, t) == 0;
      assert c[1..][..n - 1] == c[..n][1..];
      CollapsePrefixIsInput(patterns, r, t[1..], n - 1);
      assert t[..n] == [t[0]] + t[1..][..n - 1];
      assert c[..n] == [c[0]] + c[1..][..n - 1];
    }
  }

  // ----- No pattern survives

  lemma {:induction false} NoSurvivorAtKeep(patterns: set<Bytes>, r: byte, t: Bytes, p: Bytes, q: nat)
    requires Closed(patterns, r) && p in patterns
    requires q <= |t|
    ensures |Keep(patterns, r, t)| == |t| && !(p <= Keep(patterns, r, t)[q..])
    decreases |t|
  {
    KeepIsBytewise(patterns, r, t);
    if t != [] {
      KeepStep(patterns, r, t);
      var k := Keep(patterns, r, t);
      var n := Longest(patterns, t);
      var m := if n == 0 then 1 else n;
      if q >= m {
        KeepIsBytewise(patterns, r, t[m..]);
        NoSurvivorAtKeep(patterns, r, t[m..], p, q - m);
        assert k[q..] == Keep(patterns, r, t[m..])[q - m..];
      } else if n > 0 {
        assert k[q..][0] == r;
      } else {
        assert k[q..] == k;
        LongestCovers(patterns, t, p);
        if p <= k {
          forall i | 0 <= i < |p|
            ensures p[i] == t[i]
          {
            assert k[i] in {r, t[i]};
          }
        }
      }
    }
  }

  lemma {:induction false} NoSurvivorAtCollapse(patterns: set<Bytes>, r: byte, t: Bytes, p: Bytes, q: nat)
    requires Closed(patterns, r) && p in patterns
    requires q <= |Collapse(patterns, r, t)|
    ensures !(p <= Collapse(patterns, r, t)[q..])
    decreases |t|
  {
    if t != [] {
      CollapseStep(patterns, r, t);
      var c := Collapse(patterns, r, t);
      var n := Longest(patterns, t);
      var m := if n == 0 then 1 else n;
      if q >= 1 {
        NoSurvivorAtCollapse(patterns, r, t[m..], p, q - 1);
        assert c[q..] == Collapse(patterns, r, t[m..])[q - 1..];
      } else if n > 0 {
        assert c[q..][0] == r;
      } else {
        assert c[q..] == c;
        LongestCovers(patterns, t, p);
        if p <= c {
          assert c[..|p|] == p;
          CollapsePrefixIsInput(patterns, r, t, |p|);
        }
      }
    }
  }

  /** No pattern occurs anywhere in either rendering, across what were match or gap boundaries. */
  lemma NoPatternSurvives(patterns: set<Bytes>, r: byte, t: Bytes)
    requires Closed(patterns, r)
    ensures FreeOf(patterns, Keep(patterns, r, t))
    ensures FreeOf(patterns, Collapse(patterns, r, t))
  {
    KeepIsBytewise(patterns, r, t);
    forall p, q: nat | p in patterns && q <= |t|
      ensures !(p <= Keep(patterns, r, t)[q..])
    {
      NoSurvivorAtKeep(patterns, r, t, p, q);
    }
    forall p, q: nat | p in patterns && q <= |Collapse(patterns, r, t)|
      ensures !(p <= Collapse(patterns, r, t)[q..])
    {
      NoSurvivorAtCollapse(patterns, r, t, p, q);
    }
  }

  /** A prefix of a pattern-free text is pattern-free. */
  lemma FreePrefix(patterns: set<Bytes>, text: Bytes, n: nat)
    requires n <= |text|
    requires FreeOf(patterns, text)
    ensures FreeOf(patterns, text[..n])
  {
    forall p | Occurs(p, text[..n])
      ensures Occurs(p, text)
    {
      var q: nat :| q <= n && p <= text[..n][q..];
      assert p <= text[q..];
    }
  }

  /** Redaction changes nothing in a pattern-free text. */
  lemma FreeTextIsFixed(patterns: set<Bytes>, r: byte, t: Bytes)
    requires FreeOf(patterns, t)
    ensures Keep(patterns, r, t) == t && Collapse(patterns, r, t) == t
  {
    forall q: nat | q < |t|
      ensures Longest(patterns, t[q..]) == 0
    {
      var p := t[q..][..Longest(patterns, t[q..])];
      assert p <= t[q..];
      assert Occurs(p, t);
    }
    SkipRenders(patterns, r, t, 0, |t|);
    assert t[0..] == t && t[0..|t|] == t && t[|t|..] == [];
  }

  /** Redacting twice is redacting once, in either rendering. */
  lemma RedactionIsIdempotent(patterns: set<Bytes>, r: byte, t: Bytes)
    requires Closed(patterns, r)
    ensures Keep(patterns, r, Keep(patterns, r, t)) == Keep(patterns, r, t)
    ensures Collapse(patterns, r, Collapse(patterns, r, t)) == Collapse(patterns, r, t)
  {
    NoPatternSurvives(patterns, r, t);
    FreeTextIsFixed(patterns, r, Keep(patterns, r, t));
    FreeTextIsFixed(patterns, r, Collapse(patterns, r, t));
  }

  // ----- The match list

  /** The spans, from `from` on, are all matches: each the longest where it starts, with none in between. */
  ghost predicate LeftmostLongest(patterns: set<Bytes>, t: Bytes, spans: seq<Span>, from: nat)
    decreases |spans|
  {
    if spans == [] then forall q :: from <= q < |t| ==> Longest(patterns, t[q..]) == 0
    else
      && from <= spans[0].start < spans[0].end <= |t|
      && Longest(patterns, t[spans[0].start..]) == spans[0].end - spans[0].start
      && (forall q :: from <= q < spans[0].start ==> Longest(patterns, t[q..]) == 0)
      && LeftmostLongest(patterns, t, spans[1..], spans[0].end)
  }

  /** The text with each span replaced, by as many replacement bytes as it is long or by one. */
  function Splice(t: Bytes, spans: seq<Span>, from: nat, r: byte, keepLength: bool): Bytes
    decreases |spans|
  {
    if from > |t| then []
    else if spans == [] then t[from..]
    else if !(from <= spans[0].start <= spans[0].end <= |t|) then []
    else
      t[from..spans[0].start]
      + Fill(r, if keepLength then spans[0].end - spans[0].start else 1)
      + Splice(t, spans[1..], spans[0].end, r, keepLength)
  }

  /** A text has only one list of leftmost longest matches. */
  lemma {:induction false} MatchListIsUnique(patterns: set<Bytes>, t: Bytes, a: seq<Span>, b: seq<Span>, from: nat)
    requires LeftmostLongest(patterns, t, a, from) && LeftmostLongest(patterns, t, b, from)
    ensures a == b
    decreases |a|
  {
    if a != [] && b != [] {
      assert a[0].start == b[0].start;
      MatchListIsUnique(patterns, t, a[1..], b[1..], a[0].end);
      assert a == [a[0]] + a[1..] && b == [b[0]] + b[1..];
    }
  }

  /** What the pieces from `from` on redact is the list of matches from there on. */
  ghost predicate ReplacesMatches(patterns: set<Bytes>, t: Bytes, r: byte, from: nat)
    requires from <= |t|
  {
    var spans := Spans(Pieces(patterns, t[from..]), from);
    && LeftmostLongest(patterns, t, spans, from)
    && Keep(patterns, r, t[from..]) == Splice(t, spans, from, r, true)
    && Collapse(patterns, r, t[from..]) == Splice(t, spans, from, r, false)
  }

  lemma PlainReplaces(patterns: set<Bytes>, t: Bytes, r: byte, from: nat)
    requires from < |t| && Longest(patterns, t[from..]) == 0
    requires ReplacesMatches(patterns, t, r, from + 1)
    ensures ReplacesMatches(patterns, t, r, from)
  {
    var rest := t[from..];
    assert rest[1..] == t[from + 1..] && rest[0] == t[from];
    KeepStep(patterns, r, rest);
    CollapseStep(patterns, r, rest);
    var spans := Spans(Pieces(patterns, t[from + 1..]), from + 1);
    assert Pieces(patterns, rest) == [Plain(rest[0])] + Pieces(patterns, t[from + 1..]);
    assert Spans(Pieces(patterns, rest), from) == spans;
    hide Keep, Collapse, Splice, LeftmostLongest, Spans, Pieces;
    SpliceEarlier(patterns, t, spans, from, r, true);
    SpliceEarlier(patterns, t, spans, from, r, false);
  }

  lemma MatchReplaces(patterns: set<Bytes>, t: Bytes, r: byte, from: nat, n: nat)
    requires from < |t| && Longest(patterns, t[from..]) == n > 0
    requires ReplacesMatches(patterns, t, r, from + n)
    ensures ReplacesMatches(patterns, t, r, from)
  {
    var rest := t[from..];
    assert rest[n..] == t[from + n..];
    KeepStep(patterns, r, rest);
    CollapseStep(patterns, r, rest);
    var spans := Spans(Pieces(patterns, t[from + n..]), from + n);
    assert Pieces(patterns, rest) == [Redacted(n)] + Pieces(patterns, t[from + n..]);
    assert Spans(Pieces(patterns, rest), from) == [Span(from, from + n)] + spans;
    hide Keep, Collapse, Splice, LeftmostLongest, Spans, Pieces;
    MatchHere(patterns, t, spans, from, n);
    SpliceHere(t, spans, from, r, n, true);
    SpliceHere(t, spans, from, r, n, false);
    assert Fill(r, 1) == [r];
  }

  lemma {:induction false} PiecesAreMatchList(patterns: set<Bytes>, t: Bytes, r: byte, from: nat)
    requires from <= |t|
    ensures ReplacesMatches(patterns, t, r, from)
    decreases |t| - from
  {
    if from == |t| {
      assert t[from..] == [];
    } else {
      hide ReplacesMatches;
      var n := Longest(patterns, t[from..]);
      PiecesAreMatchList(patterns, t, r, from + if n == 0 then 1 else n);
      if n == 0 {
        PlainReplaces(patterns, t, r, from);
      } else {
        MatchReplaces(patterns, t, r, from, n);
      }
    }
  }

  lemma MatchHere(patterns: set<Bytes>, t: Bytes, spans: seq<Span>, from: nat, n: nat)
    requires from < |t| && Longest(patterns, t[from..]) == n > 0
    requires LeftmostLongest(patterns, t, spans, from + n)
    ensures LeftmostLongest(patterns, t, [Span(from, from + n)] + spans, from)
  {
    assert ([Span(from, from + n)] + spans)[1..] == spans;
  }

  lemma SpliceHere(t: Bytes, spans: seq<Span>, from: nat, r: byte, n: nat, keepLength: bool)
    requires from + n <= |t|
    ensures Splice(t, [Span(from, from + n)] + spans, from, r, keepLength)
         == Fill(r, if keepLength then n else 1) + Splice(t, spans, from + n, r, keepLength)
  {
    var all := [Span(from, from + n)] + spans;
    assert all[1..] == spans && all[0] == Span(from, from + n);
    var rest, fill := Splice(t, spans, from + n, r, keepLength), Fill(r, if keepLength then n else 1);
    assert Splice(t, all, from, r, keepLength) == t[from..from] + fill + rest;
    hide Splice;
    assert t[from..from] == [];
    assert t[from..from] + fill == fill;
  }

  lemma SpliceEarlier(patterns: set<Bytes>, t: Bytes, spans: seq<Span>, from: nat, r: byte, keepLength: bool)
    requires from < |t| && Longest(patterns, t[from..]) == 0
    requires LeftmostLongest(patterns, t, spans, from + 1)
    ensures LeftmostLongest(patterns, t, spans, from)
    ensures Splice(t, spans, from, r, keepLength) == [t[from]] + Splice(t, spans, from + 1, r, keepLength)
  {
    if spans == [] {
      assert t[from..] == [t[from]] + t[from + 1..];
    } else {
      assert t[from..spans[0].start] == [t[from]] + t[from + 1..spans[0].start];
    }
  }

  /** Both redactions replace exactly the leftmost longest matches, and copy everything else. */
  lemma RedactionsReplaceTheMatches(patterns: set<Bytes>, t: Bytes, r: byte, spans: seq<Span>)
    requires LeftmostLongest(patterns, t, spans, 0)
    ensures Keep(patterns, r, t) == Splice(t, spans, 0, r, true)
    ensures Collapse(patterns, r, t) == Splice(t, spans, 0, r, false)
  {
    PiecesAreMatchList(patterns, t, r, 0);
    assert t[0..] == t;
    MatchListIsUnique(patterns, t, spans, Spans(Pieces(patterns, t), 0), 0);
  }
}
