/**
 The exact-value credential redactor: its construction, its sorted prefix index, and the two
 operations that work on one contiguous buffer.
 */
module Redactor {
  import opened Bytes
  import opened Ordering
  import opened Matching

  const PREFERRED_CREDENTIAL_REDACTION_BYTE: byte := 42
  const MAX_REDACTION_INPUT_BYTES: nat := 1024 * 1024
  const MAX_REDACTION_OUTPUT_BYTES: nat := 8 * 1024 * 1024
  const MAX_REDACTION_COMPARISON_BYTES: nat := 128 * 1024 * 1024
  const MAX_REDACTION_PATTERN_BYTES: nat := 4 * 1024 * 1024 + 2 * 1024 * 1024
  const MAX_REDACTION_PATTERNS: nat := 64 + 64 + 1

  datatype RedactionError =
    | RedactionMarkerUnavailable
    | RedactionInputTooLarge
    | RedactionOutputTooLarge
    | RedactionPatternLimitExceeded
    | RedactionWorkLimitExceeded

  datatype PrefixEntry = PrefixEntry(key: nat, patternIndex: nat)

  // ----- Canonical pattern order

  predicate LexLe(a: Bytes, b: Bytes) {
    a == [] || (b != [] && (a[0] < b[0] || (a[0] == b[0] && LexLe(a[1..], b[1..]))))
  }

  predicate PatternLe(a: Bytes, b: Bytes) {
    |a| > |b| || (|a| == |b| && LexLe(a, b))
  }

  lemma {:induction false} LexTotal(a: Bytes, b: Bytes)
    ensures LexLe(a, b) || LexLe(b, a)
    ensures LexLe(a, b) && LexLe(b, a) ==> a == b
  {
    if a != [] && b != [] && a[0] == b[0] {
      LexTotal(a[1..], b[1..]);
      assert a == [a[0]] + a[1..] && b == [b[0]] + b[1..];
    }
  }

  lemma {:induction false} LexTransitive(a: Bytes, b: Bytes, c: Bytes)
    requires LexLe(a, b) && LexLe(b, c)
    ensures LexLe(a, c)
  {
    if a != [] && a[0] == b[0] && b[0] == c[0] {
      LexTransitive(a[1..], b[1..], c[1..]);
    }
  }

  lemma PatternOrderIsTotal()
    ensures TotalPreorder(PatternLe)
    ensures forall a, b :: PatternLe(a, b) && PatternLe(b, a) ==> a == b
  {
    forall a, b
      ensures PatternLe(a, b) || PatternLe(b, a)
      ensures PatternLe(a, b) && PatternLe(b, a) ==> a == b
    {
      LexTotal(a, b);
    }
    forall a, b, c | PatternLe(a, b) && PatternLe(b, c)
      ensures PatternLe(a, c)
    {
      if |a| == |b| == |c| {
        LexTransitive(a, b, c);
      }
    }
  }

  function Dedup(s: seq<Bytes>): seq<Bytes> {
    if |s| <= 1 then s
    else if s[0] == s[1] then Dedup(s[1..])
    else [s[0]] + Dedup(s[1..])
  }

  /** In a sorted list, dropping repeats of the neighbour drops every repeat. */
  lemma {:induction false} DedupIsDistinct(s: seq<Bytes>)
    requires SortedBy(PatternLe, s)
    requires forall a, b :: PatternLe(a, b) && PatternLe(b, a) ==> a == b
    ensures SortedBy(PatternLe, Dedup(s)) && Distinct(Dedup(s))
    ensures forall p :: p in Dedup(s) <==> p in s
  {
    if |s| > 1 {
      DedupIsDistinct(s[1..]);
      assert s == [s[0]] + s[1..];
      assert forall p :: p in s[1..] ==> PatternLe(s[0], p);
      assert forall p :: p in s[1..] ==> p == s[1] || PatternLe(s[1], p);
    }
  }

  function TotalBytes(patterns: seq<Bytes>): nat {
    Sum((p: Bytes) => |p|, patterns)
  }

  // ----- The prefix index

  function PairKey(first: byte, second: byte): nat {
    256 + first * 256 + second
  }

  function PatternPrefix(pattern: Bytes): nat
    requires pattern != []
  {
    if |pattern| == 1 then pattern[0] else PairKey(pattern[0], pattern[1])
  }

  function EntryWeight(patterns: seq<Bytes>): PrefixEntry -> nat {
    (entry: PrefixEntry) => if entry.patternIndex < |patterns| then |patterns[entry.patternIndex]| else 0
  }

  function BuildPrefixes(patterns: seq<Bytes>): seq<PrefixEntry>
    requires [] !in patterns
  {
    seq(|patterns|, i requires 0 <= i < |patterns| => PrefixEntry(PatternPrefix(patterns[i]), i))
  }

  function EntryLe(patterns: seq<Bytes>): (PrefixEntry, PrefixEntry) -> bool {
    (left: PrefixEntry, right: PrefixEntry) =>
      left.key < right.key
      || (left.key == right.key && EntryWeight(patterns)(left) >= EntryWeight(patterns)(right))
  }

  lemma {:induction false} BuiltWeight(patterns: seq<Bytes>, n: nat)
    requires [] !in patterns && n <= |patterns|
    ensures Sum(EntryWeight(patterns), BuildPrefixes(patterns)[..n]) == TotalBytes(patterns[..n])
  {
    if n > 0 {
      var entries := BuildPrefixes(patterns);
      BuiltWeight(patterns, n - 1);
      assert entries[..n] == entries[..n - 1] + [entries[n - 1]];
      assert patterns[..n] == patterns[..n - 1] + [patterns[n - 1]];
      SumAppend(EntryWeight(patterns), entries[..n - 1], [entries[n - 1]]);
      SumAppend((p: Bytes) => |p|, patterns[..n - 1], [patterns[n - 1]]);
      assert Sum(EntryWeight(patterns), [entries[n - 1]]) == |patterns[n - 1]|;
      assert Sum((p: Bytes) => |p|, [patterns[n - 1]]) == |patterns[n - 1]|;
    }
  }

  datatype Redactor = Redactor(
    patterns: seq<Bytes>,
    prefixes: seq<PrefixEntry>,
    replacement: byte)
  {
    ghost function PatternSet(): set<Bytes> {
      set p | p in patterns
    }

    ghost predicate ValidPatterns() {
      && Distinct(patterns)
      && (forall i, j :: 0 <= i < j < |patterns| ==> |patterns[i]| >= |patterns[j]|)
      && Closed(PatternSet(), replacement)
    }

    ghost predicate ValidIndex() {
      && (forall e :: 0 <= e < |prefixes| ==>
            && prefixes[e].patternIndex < |patterns|
            && patterns[prefixes[e].patternIndex] != []
            && prefixes[e].key == PatternPrefix(patterns[prefixes[e].patternIndex]))
      && (forall i :: 0 <= i < |patterns| ==> patterns[i] != [] && PrefixEntry(PatternPrefix(patterns[i]), i) in prefixes)
      && SortedBy(EntryLe(patterns), prefixes)
      && Sum(EntryWeight(patterns), prefixes) == TotalBytes(patterns)
    }

    ghost predicate Valid() {
      ValidPatterns() && ValidIndex()
    }

    function MaxPatternLen(): nat {
      if patterns == [] then 0 else |patterns[0]|
    }

    /** The number of index entries whose key is below `key`. */
    function KeyStart(key: nat): (n: nat)
      requires Valid()
      ensures n <= |prefixes|
      ensures forall e :: 0 <= e < n ==> prefixes[e].key < key
      ensures forall e :: n <= e < |prefixes| ==> prefixes[e].key >= key
    {
      PartitionPoint(prefixes, (entry: PrefixEntry) => entry.key < key)
    }

    function PatternOf(e: nat): (p: Bytes)
      requires Valid() && e < |prefixes|
      ensures p != [] && p in patterns && PatternPrefix(p) == prefixes[e].key
    {
      patterns[prefixes[e].patternIndex]
    }

    /** Pattern bytes behind the first `n` index entries. */
    ghost function Weight(n: nat): nat
      requires n <= |prefixes|
    {
      Sum(EntryWeight(patterns), prefixes[..n])
    }

    ghost function KeyPatterns(key: nat): set<Bytes> {
      set p | p in patterns && p != [] && PatternPrefix(p) == key
    }
  }

  // ----- Construction

  /** The patterns in canonical order without repeats. */
  function Canonical(patterns: seq<Bytes>): (r: seq<Bytes>)
    ensures Distinct(r) && SortedBy(PatternLe, r)
    ensures forall p :: p in r <==> p in patterns
  {
    PatternOrderIsTotal();
    var sorted := Sort(PatternLe, patterns);
    DedupIsDistinct(sorted);
    assert forall p :: p in sorted <==> p in multiset(sorted);
    Dedup(sorted)
  }

  /** The candidate replacement byte at one offset from the preferred one. */
  function Candidate(offset: nat): byte {
    (PREFERRED_CREDENTIAL_REDACTION_BYTE + offset) % 256
  }

  ghost predicate Unused(patterns: seq<Bytes>, b: byte) {
    forall p :: p in patterns ==> b !in p
  }

  /** The least unused byte from `*` on, or below it only if there is none from there on. */
  ghost predicate FirstUnused(patterns: seq<Bytes>, r: byte) {
    && Unused(patterns, r)
    && forall b: byte :: Unused(patterns, b) ==>
         if '*' as int <= r then b < '*' as int || r <= b else r <= b < '*' as int
  }

  lemma CandidatesGoAround(patterns: seq<Bytes>, offset: nat)
    requires offset < 256 && Unused(patterns, Candidate(offset))
    requires forall earlier: nat :: earlier < offset ==> !Unused(patterns, Candidate(earlier))
    ensures FirstUnused(patterns, Candidate(offset))
  {
    forall b: byte | Unused(patterns, b)
      ensures (b + 214) % 256 >= offset
    {
      var around: nat := (b + 214) % 256;
      assert Candidate(around) == b;
    }
  }

  lemma IndexIsValid(patterns: seq<Bytes>, prefixes: seq<PrefixEntry>, replacement: byte)
    requires [] !in patterns
    requires SortedBy(EntryLe(patterns), prefixes)
    requires multiset(prefixes) == multiset(BuildPrefixes(patterns))
    ensures Redactor(patterns, prefixes, replacement).ValidIndex()
  {
    hide EntryLe;
    var built := BuildPrefixes(patterns);
    forall e | 0 <= e < |prefixes|
      ensures prefixes[e] in built
    {
      assert prefixes[e] in multiset(built);
    }
    forall i | 0 <= i < |patterns|
      ensures PrefixEntry(PatternPrefix(patterns[i]), i) in prefixes
    {
      assert built[i] in multiset(prefixes);
    }
    SumIgnoresOrder(EntryWeight(patterns), prefixes, built);
    BuiltWeight(patterns, |patterns|);
    assert built[..|patterns|] == built && patterns[..|patterns|] == patterns;
  }

  /** The first byte no pattern uses, counting up from the preferred one with wrap-around. */
  method ChooseReplacement(patterns: seq<Bytes>) returns (r: Option<byte>)
    ensures r.Some? ==> exists offset: nat ::
      && offset < 256 && r.value == Candidate(offset) && Unused(patterns, r.value)
      && forall earlier: nat :: earlier < offset ==> !Unused(patterns, Candidate(earlier))
    ensures r.Some? ==> FirstUnused(patterns, r.value)
    ensures r.None? ==> forall b: byte :: !Unused(patterns, b)
  {
    for offset: nat := 0 to 256
      invariant forall earlier: nat :: earlier < offset ==> !Unused(patterns, Candidate(earlier))
    {
      if forall p :: p in patterns ==> Candidate(offset) !in p {
        CandidatesGoAround(patterns, offset);
        return Some(Candidate(offset));
      }
    }
    forall b: byte
      ensures !Unused(patterns, b)
    {
      assert Candidate((b + 214) % 256) == b;
    }
    return None;
  }

  lemma BuiltRedactorIsValid(canonical: seq<Bytes>, prefixes: seq<PrefixEntry>, replacement: byte)
    requires [] !in canonical && Distinct(canonical) && SortedBy(PatternLe, canonical)
    requires Unused(canonical, replacement)
    requires SortedBy(EntryLe(canonical), prefixes)
    requires multiset(prefixes) == multiset(BuildPrefixes(canonical))
    ensures Redactor(canonical, prefixes, replacement).Valid()
  {
    hide Redactor.ValidIndex;
    IndexIsValid(canonical, prefixes, replacement);
    forall i, j | 0 <= i < j < |canonical|
      ensures |canonical[i]| >= |canonical[j]|
    {
      assert PatternLe(canonical[i], canonical[j]);
    }
  }

  lemma EntryOrderIsTotal(patterns: seq<Bytes>)
    ensures TotalPreorder(EntryLe(patterns))
  {
  }

  /**
   Accepts exactly the pattern lists whose distinct members are nonempty, within both limits, and
   leave some byte unused; the first unused byte counting up from the preferred one, with
   wrap-around, becomes the replacement.
   */
  method New(patterns: seq<Bytes>) returns (r: Result<Redactor, RedactionError>)
    ensures r.Ok? ==>
      && r.value.Valid()
      && r.value.patterns == Canonical(patterns)
      && r.value.PatternSet() == (set p | p in patterns)
      && FirstUnused(Canonical(patterns), r.value.replacement)
      && exists offset: nat ::
           && offset < 256 && r.value.replacement == Candidate(offset)
           && forall earlier: nat :: earlier < offset ==> !Unused(Canonical(patterns), Candidate(earlier))
    ensures r == Err(RedactionPatternLimitExceeded) <==>
      || |Canonical(patterns)| > MAX_REDACTION_PATTERNS
      || [] in patterns
      || TotalBytes(Canonical(patterns)) > MAX_REDACTION_PATTERN_BYTES
    ensures r == Err(RedactionMarkerUnavailable) ==> forall b: byte :: !Unused(Canonical(patterns), b)
    ensures r.Err? ==> r.error in {RedactionPatternLimitExceeded, RedactionMarkerUnavailable}
  {
    hide Redactor.Valid, TotalPreorder, PatternLe, Unused, FirstUnused, EntryLe;
    var canonical := Canonical(patterns);
    if |canonical| > MAX_REDACTION_PATTERNS || [] in canonical {
      return Err(RedactionPatternLimitExceeded);
    }
    if TotalBytes(canonical) > MAX_REDACTION_PATTERN_BYTES {
      return Err(RedactionPatternLimitExceeded);
    }
    var replacement := ChooseReplacement(canonical);
    if replacement.None? {
      return Err(RedactionMarkerUnavailable);
    }
    EntryOrderIsTotal(canonical);
    var prefixes := Sort(EntryLe(canonical), BuildPrefixes(canonical));
    BuiltRedactorIsValid(canonical, prefixes, replacement.value);
    r := Ok(Redactor(canonical, prefixes, replacement.value));
  }

  // ----- Lookup

  /** A pattern that starts `t` is found under the key of the first two bytes or of the first one. */
  lemma KeysCover(redactor: Redactor, t: Bytes)
    requires redactor.Valid() && t != []
    ensures var single := Longest(redactor.KeyPatterns(t[0]), t);
      Longest(redactor.PatternSet(), t) ==
        if |t| == 1 then single
        else var double := Longest(redactor.KeyPatterns(PairKey(t[0], t[1])), t);
          if double > 0 then double else single
  {
    var single := Longest(redactor.KeyPatterns(t[0]), t);
    var double := if |t| == 1 then 0 else Longest(redactor.KeyPatterns(PairKey(t[0], t[1])), t);
    var n := if double > 0 then double else single;
    forall p | p in redactor.PatternSet() && p <= t
      ensures |p| <= n
    {
      if |p| == 1 {
        LongestCovers(redactor.KeyPatterns(t[0]), t, p);
      } else {
        LongestCovers(redactor.KeyPatterns(PairKey(t[0], t[1])), t, p);
      }
    }
    LongestIs(redactor.PatternSet(), t, n);
  }

  lemma WeightStep(redactor: Redactor, n: nat)
    requires redactor.Valid() && n < |redactor.prefixes|
    ensures redactor.Weight(n + 1)
         == redactor.Weight(n) + |redactor.PatternOf(n)|
  {
    var weight := EntryWeight(redactor.patterns);
    assert redactor.prefixes[..n + 1] == redactor.prefixes[..n] + [redactor.prefixes[n]];
    SumAppend(weight, redactor.prefixes[..n], [redactor.prefixes[n]]);
    assert Sum(weight, [redactor.prefixes[n]]) == weight(redactor.prefixes[n]);
  }

  lemma {:induction false} WeightGrows(redactor: Redactor, a: nat, b: nat)
    requires redactor.Valid() && a <= b <= |redactor.prefixes|
    ensures redactor.Weight(a) <= redactor.Weight(b) <= TotalBytes(redactor.patterns)
    decreases |redactor.prefixes| - a
  {
    if a < b {
      WeightStep(redactor, a);
      WeightGrows(redactor, a + 1, b);
    } else if a < |redactor.prefixes| {
      WeightStep(redactor, a);
      WeightGrows(redactor, a + 1, a + 1);
    } else {
      assert redactor.prefixes[..a] == redactor.prefixes;
    }
  }

  lemma KeyStartGrows(redactor: Redactor, a: nat, b: nat)
    requires redactor.Valid() && a <= b
    ensures redactor.KeyStart(a) <= redactor.KeyStart(b)
  {
    var lo, hi := redactor.KeyStart(a), redactor.KeyStart(b);
    assert hi < |redactor.prefixes| ==> redactor.prefixes[hi].key >= b;
  }

  lemma KeysAreSorted(redactor: Redactor)
    requires redactor.Valid()
    ensures forall i, j :: 0 <= i <= j < |redactor.prefixes| ==> redactor.prefixes[i].key <= redactor.prefixes[j].key
  {
    forall i, j | 0 <= i < j < |redactor.prefixes|
      ensures redactor.prefixes[i].key <= redactor.prefixes[j].key
    {
      assert EntryLe(redactor.patterns)(redactor.prefixes[i], redactor.prefixes[j]);
    }
  }

  /** Bytes that looking up one key can charge. */
  ghost function KeyCharge(redactor: Redactor, key: nat): (n: nat)
    requires redactor.Valid()
  {
    var lo, hi := redactor.KeyStart(key), redactor.KeyStart(key + 1);
    KeyStartGrows(redactor, key, key + 1);
    WeightGrows(redactor, lo, hi);
    redactor.Weight(hi) - redactor.Weight(lo)
  }

  /** The two keys tried at one position own disjoint index ranges. */
  lemma TwoKeysCharge(redactor: Redactor, single: nat, double: nat)
    requires redactor.Valid() && single < double
    ensures KeyCharge(redactor, single) + KeyCharge(redactor, double) <= TotalBytes(redactor.patterns)
  {
    var a, b := redactor.KeyStart(single), redactor.KeyStart(single + 1);
    var c, d := redactor.KeyStart(double), redactor.KeyStart(double + 1);
    KeyStartGrows(redactor, single + 1, double);
    WeightGrows(redactor, b, c);
    WeightGrows(redactor, d, d);
  }

  lemma OneKeyCharge(redactor: Redactor, key: nat)
    requires redactor.Valid()
    ensures KeyCharge(redactor, key) <= TotalBytes(redactor.patterns)
  {
    var hi := redactor.KeyStart(key + 1);
    WeightGrows(redactor, hi, hi);
  }

  /** The result that a lookup under one key stands for. */
  ghost function KeyMatch(redactor: Redactor, input: Bytes, position: nat, key: nat): Option<nat>
    requires position <= |input|
  {
    var n := Longest(redactor.KeyPatterns(key), input[position..]);
    if n == 0 then None else Some(position + n)
  }

  /** The first index entry of a key that matches is the longest pattern of that key that does. */
  lemma FirstEntryIsLongest(redactor: Redactor, t: Bytes, key: nat, first: nat, i: nat)
    requires redactor.Valid() && first == redactor.KeyStart(key)
    requires first <= i < |redactor.prefixes| && redactor.prefixes[i].key == key
    requires forall e :: first <= e < i ==> !(redactor.PatternOf(e) <= t)
    requires redactor.PatternOf(i) <= t
    ensures Longest(redactor.KeyPatterns(key), t) == |redactor.PatternOf(i)|
  {
    hide Redactor.ValidPatterns;
    var found := redactor.PatternOf(i);
    assert t[..|found|] == found;
    forall p | p in redactor.KeyPatterns(key) && p <= t
      ensures |p| <= |found|
    {
      var k :| 0 <= k < |redactor.patterns| && redactor.patterns[k] == p;
      var e :| 0 <= e < |redactor.prefixes| && redactor.prefixes[e] == PrefixEntry(PatternPrefix(p), k);
      assert redactor.PatternOf(e) == p;
      if e > i {
        assert EntryLe(redactor.patterns)(redactor.prefixes[i], redactor.prefixes[e]);
      }
    }
    LongestIs(redactor.KeyPatterns(key), t, |found|);
  }

  lemma NoEntryMatches(redactor: Redactor, t: Bytes, key: nat, first: nat, i: nat)
    requires redactor.Valid() && first == redactor.KeyStart(key)
    requires first <= i <= |redactor.prefixes|
    requires i == |redactor.prefixes| || redactor.prefixes[i].key != key
    requires forall e :: first <= e < i ==>
      && redactor.prefixes[e].key == key
      && !(redactor.PatternOf(e) <= t)
    ensures Longest(redactor.KeyPatterns(key), t) == 0
  {
    hide Redactor.ValidPatterns;
    KeysAreSorted(redactor);
    forall p | p in redactor.KeyPatterns(key)
      ensures p <= t ==> |p| <= 0
    {
      var k :| 0 <= k < |redactor.patterns| && redactor.patterns[k] == p;
      var e :| 0 <= e < |redactor.prefixes| && redactor.prefixes[e] == PrefixEntry(PatternPrefix(p), k);
    }
    LongestIs(redactor.KeyPatterns(key), t, 0);
  }

  lemma KeyRangeEnds(redactor: Redactor, key: nat, i: nat)
    requires redactor.Valid() && i < |redactor.prefixes|
    requires redactor.prefixes[i].key == key
    ensures redactor.KeyStart(key) <= i < redactor.KeyStart(key + 1)
  {
  }

  method MatchAtKey(redactor: Redactor, input: Bytes, position: nat, key: nat, compared: nat)
    returns (r: Result<Option<nat>, RedactionError>, charged: nat)
    requires redactor.Valid() && position <= |input|
    ensures r.Ok? ==> r.value == KeyMatch(redactor, input, position, key)
    ensures r.Err? ==> r.error == RedactionWorkLimitExceeded && charged > MAX_REDACTION_COMPARISON_BYTES
    ensures compared <= charged <= compared + KeyCharge(redactor, key)
  {
    hide Redactor.ValidIndex, Redactor.ValidPatterns, Redactor.Weight, Redactor.PatternOf;
    var first := redactor.KeyStart(key);
    var i := first;
    charged := compared;
    KeyStartGrows(redactor, key, key + 1);
    while i < |redactor.prefixes| && redactor.prefixes[i].key == key
      invariant first <= i <= redactor.KeyStart(key + 1)
      invariant forall e :: first <= e < i ==>
        && redactor.prefixes[e].key == key
        && !(redactor.PatternOf(e) <= input[position..])
      invariant compared <= charged == compared + redactor.Weight(i) - redactor.Weight(first)
    {
      var pattern := redactor.PatternOf(i);
      var end := position + |pattern|;
      charged := charged + |pattern|;
      WeightStep(redactor, i);
      KeyRangeEnds(redactor, key, i);
      WeightGrows(redactor, i + 1, redactor.KeyStart(key + 1));
      if charged > MAX_REDACTION_COMPARISON_BYTES {
        return Err(RedactionWorkLimitExceeded), charged;
      }
      if end <= |input| && input[position..end] == pattern {
        assert pattern <= input[position..];
        FirstEntryIsLongest(redactor, input[position..], key, first, i);
        return Ok(Some(end)), charged;
      }
      i := i + 1;
    }
    WeightGrows(redactor, i, redactor.KeyStart(key + 1));
    NoEntryMatches(redactor, input[position..], key, first, i);
    return Ok(None), charged;
  }

  /** Comparison work for scanning `positions` positions, each charging every pattern once. */
  ghost function Work(positions: nat, total: nat): nat {
    if positions == 0 then 0 else total + Work(positions - 1, total)
  }

  lemma {:induction false} WorkIsProduct(positions: nat, total: nat)
    ensures Work(positions, total) == positions * total
  {
    if positions > 0 {
      WorkIsProduct(positions - 1, total);
    }
  }

  lemma {:induction false} WorkAdds(a: nat, b: nat, total: nat)
    ensures Work(a + b, total) == Work(a, total) + Work(b, total)
  {
    if b > 0 {
      WorkAdds(a, b - 1, total);
    }
  }

  /** Tries both keys of one position: the longest pattern there, charging each pattern at most once. */
  method MatchAt(redactor: Redactor, input: Bytes, position: nat, compared: nat)
    returns (r: Result<Option<nat>, RedactionError>, charged: nat)
    requires redactor.Valid() && position < |input|
    ensures r.Ok? ==>
      var n := Longest(redactor.PatternSet(), input[position..]);
      r.value == if n == 0 then None else Some(position + n)
    ensures r.Err? ==> r.error == RedactionWorkLimitExceeded && charged > MAX_REDACTION_COMPARISON_BYTES
    ensures compared <= charged <= compared + TotalBytes(redactor.patterns)
  {
    hide Redactor.ValidIndex, Redactor.ValidPatterns, KeyCharge;
    charged := compared;
    KeysCover(redactor, input[position..]);
    var single: nat := input[position];
    OneKeyCharge(redactor, single);
    if position + 1 < |input| {
      var double := PairKey(input[position], input[position + 1]);
      TwoKeysCharge(redactor, single, double);
      r, charged := MatchAtKey(redactor, input, position, double, charged);
      if r.Err? || r.value.Some? {
        return;
      }
    }
    r, charged := MatchAtKey(redactor, input, position, single, charged);
  }

  /**
   The least position at or after `start` where any pattern matches, with the end of the longest
   one there; `None` exactly when none matches.
   */
  method FindNext(redactor: Redactor, input: Bytes, start: nat, compared: nat)
    returns (r: Result<Option<Span>, RedactionError>, charged: nat)
    requires redactor.Valid() && start <= |input|
    ensures r.Ok? && r.value.Some? ==>
      var span := r.value.value;
      && start <= span.start < span.end <= |input|
      && Longest(redactor.PatternSet(), input[span.start..]) == span.end - span.start
      && (forall q :: start <= q < span.start ==> Longest(redactor.PatternSet(), input[q..]) == 0)
      && charged <= compared + Work(span.start + 1 - start, TotalBytes(redactor.patterns))
    ensures r.Ok? && r.value.None? ==>
      forall q :: start <= q < |input| ==> Longest(redactor.PatternSet(), input[q..]) == 0
    ensures r.Err? ==> r.error == RedactionWorkLimitExceeded && charged > MAX_REDACTION_COMPARISON_BYTES
    ensures charged <= compared + Work(|input| - start, TotalBytes(redactor.patterns))
  {
    hide Redactor.Valid;
    var position := start;
    charged := compared;
    ghost var total := TotalBytes(redactor.patterns);
    while position < |input|
      invariant start <= position <= |input|
      invariant forall q :: start <= q < position ==> Longest(redactor.PatternSet(), input[q..]) == 0
      invariant charged <= compared + Work(position - start, total)
    {
      var found;
      found, charged := MatchAt(redactor, input, position, charged);
      WorkAdds(position + 1 - start, |input| - position - 1, total);
      if found.Err? {
        return Err(found.error), charged;
      }
      if found.value.Some? {
        return Ok(Some(Span(position, found.value.value))), charged;
      }
      position := position + 1;
    }
    return Ok(None), charged;
  }

  // ----- Redaction of one buffer

  /** With no patterns the input is its own redaction. */
  lemma NoPatternsNoChange(r: byte, t: Bytes)
    ensures Keep({}, r, t) == t && Collapse({}, r, t) == t
  {
    FreeTextIsFixed({}, r, t);
  }

  /** What one found match contributes to both renderings of what is left. */
  lemma MatchRenders(redactor: Redactor, t: Bytes, cursor: nat, span: Span)
    requires cursor <= span.start < span.end <= |t|
    requires Longest(redactor.PatternSet(), t[span.start..]) == span.end - span.start
    requires forall q :: cursor <= q < span.start ==> Longest(redactor.PatternSet(), t[q..]) == 0
    ensures var p, r := redactor.PatternSet(), redactor.replacement;
      && Collapse(p, r, t[cursor..]) == t[cursor..span.start] + [r] + Collapse(p, r, t[span.end..])
      && Keep(p, r, t[cursor..])
           == t[cursor..span.start] + Fill(r, span.end - span.start) + Keep(p, r, t[span.end..])
  {
    hide Keep, Collapse, Redactor.PatternSet;
    var p, r := redactor.PatternSet(), redactor.replacement;
    SkipRenders(p, r, t, cursor, span.start);
    CollapseStep(p, r, t[span.start..]);
    KeepStep(p, r, t[span.start..]);
    assert t[span.start..][span.end - span.start..] == t[span.end..];
  }

  lemma TailRenders(redactor: Redactor, t: Bytes, cursor: nat)
    requires cursor <= |t|
    requires forall q :: cursor <= q < |t| ==> Longest(redactor.PatternSet(), t[q..]) == 0
    ensures Collapse(redactor.PatternSet(), redactor.replacement, t[cursor..]) == t[cursor..]
    ensures Keep(redactor.PatternSet(), redactor.replacement, t[cursor..]) == t[cursor..]
  {
    SkipRenders(redactor.PatternSet(), redactor.replacement, t, cursor, |t|);
    assert t[|t|..] == [];
  }

  /** Charges of successive scans add up to one pass over the scanned prefix. */
  lemma WorkUpTo(a: nat, b: nat, end: nat, total: nat)
    requires a <= b <= end
    ensures Work(a, total) + Work(b - a, total) == Work(b, total) <= Work(end, total)
  {
    WorkAdds(a, b - a, total);
    WorkAdds(b, end - b, total);
  }

  /** `output` is the collapsed rendering of everything before `cursor`. */
  ghost predicate Collapsed(redactor: Redactor, input: Bytes, cursor: nat, output: Bytes) {
    var patterns, r := redactor.PatternSet(), redactor.replacement;
    && cursor <= |input|
    && output + Collapse(patterns, r, input[cursor..]) == Collapse(patterns, r, input)
  }

  lemma CollapsedStart(redactor: Redactor, input: Bytes)
    ensures Collapsed(redactor, input, 0, [])
  {
    assert input[0..] == input;
  }

  lemma CollapsedMatch(redactor: Redactor, input: Bytes, cursor: nat, output: Bytes, span: Span)
    requires Collapsed(redactor, input, cursor, output)
    requires cursor <= span.start < span.end <= |input|
    requires Longest(redactor.PatternSet(), input[span.start..]) == span.end - span.start
    requires forall q :: cursor <= q < span.start ==> Longest(redactor.PatternSet(), input[q..]) == 0
    ensures Collapsed(redactor, input, span.end, output + input[cursor..span.start] + [redactor.replacement])
    ensures |output| + (span.start - cursor) + 1 <= |Collapse(redactor.PatternSet(), redactor.replacement, input)|
  {
    hide Collapse;
    MatchRenders(redactor, input, cursor, span);
    var gap, r := input[cursor..span.start], redactor.replacement;
    var rest := Collapse(redactor.PatternSet(), r, input[span.end..]);
    assert output + gap + [r] + rest == output + (gap + [r] + rest);
  }

  lemma CollapsedEnd(redactor: Redactor, input: Bytes, cursor: nat, output: Bytes)
    requires Collapsed(redactor, input, cursor, output)
    requires forall q :: cursor <= q < |input| ==> Longest(redactor.PatternSet(), input[q..]) == 0
    ensures output + input[cursor..] == Collapse(redactor.PatternSet(), redactor.replacement, input)
  {
    hide Collapse;
    TailRenders(redactor, input, cursor);
  }

  method RedactWithLimits(redactor: Redactor, input: Bytes, maxInput: nat, maxOutput: nat)
    returns (r: Result<Bytes, RedactionError>)
    requires redactor.Valid()
    ensures r.Ok? ==> r.value == Collapse(redactor.PatternSet(), redactor.replacement, input)
    ensures r.Ok? && redactor.patterns != [] ==> |r.value| <= maxOutput
    ensures r == Err(RedactionInputTooLarge) <==> |input| > maxInput
    ensures r == Err(RedactionOutputTooLarge) ==>
      |Collapse(redactor.PatternSet(), redactor.replacement, input)| > maxOutput
    ensures r == Err(RedactionWorkLimitExceeded) ==>
      |input| * TotalBytes(redactor.patterns) > MAX_REDACTION_COMPARISON_BYTES
    ensures r.Err? ==>
      r.error in {RedactionInputTooLarge, RedactionOutputTooLarge, RedactionWorkLimitExceeded}
  {
    hide Redactor.Valid, Collapsed, Collapse;
    ghost var total := TotalBytes(redactor.patterns);
    if |input| > maxInput {
      return Err(RedactionInputTooLarge);
    }
    if redactor.patterns == [] {
      assert redactor.PatternSet() == {};
      NoPatternsNoChange(redactor.replacement, input);
      return Ok(input);
    }
    var output: Bytes, cursor := [], 0;
    var compared: nat := 0;
    CollapsedStart(redactor, input);
    while true
      invariant cursor <= |input|
      invariant Collapsed(redactor, input, cursor, output)
      invariant compared <= Work(cursor, total)
      decreases |input| - cursor
    {
      var found;
      found, compared := FindNext(redactor, input, cursor, compared);
      WorkUpTo(cursor, |input|, |input|, total);
      WorkIsProduct(|input|, total);
      if found.Err? {
        return Err(found.error);
      }
      if found.value.None? {
        break;
      }
      var span := found.value.value;
      CollapsedMatch(redactor, input, cursor, output, span);
      WorkUpTo(cursor, span.start + 1, span.end, total);
      if |output| + (span.start - cursor) > maxOutput {
        return Err(RedactionOutputTooLarge);
      }
      output := output + input[cursor..span.start];
      if |output| + 1 > maxOutput {
        return Err(RedactionOutputTooLarge);
      }
      output := output + [redactor.replacement];
      cursor := span.end;
    }
    CollapsedEnd(redactor, input, cursor, output);
    if |output| + (|input| - cursor) > maxOutput {
      return Err(RedactionOutputTooLarge);
    }
    r := Ok(output + input[cursor..]);
  }

  /**
   The bounded one-shot redaction: the collapsed rendering, in which no pattern occurs. It fails
   only on an oversized input or on work beyond the budget, which a product bound rules out.
   */
  method Redact(redactor: Redactor, input: Bytes) returns (r: Result<Bytes, RedactionError>)
    requires redactor.Valid()
    ensures r.Ok? ==>
      && r.value == Collapse(redactor.PatternSet(), redactor.replacement, input)
      && FreeOf(redactor.PatternSet(), r.value)
      && |r.value| <= |input|
    ensures r == Err(RedactionInputTooLarge) <==> |input| > MAX_REDACTION_INPUT_BYTES
    ensures
      (|input| <= MAX_REDACTION_INPUT_BYTES
       && |input| * TotalBytes(redactor.patterns) <= MAX_REDACTION_COMPARISON_BYTES) ==> r.Ok?
    ensures r.Err? ==> r.error in {RedactionInputTooLarge, RedactionWorkLimitExceeded}
  {
    CollapseNeverGrows(redactor.PatternSet(), redactor.replacement, input);
    NoPatternSurvives(redactor.PatternSet(), redactor.replacement, input);
    r := RedactWithLimits(redactor, input, MAX_REDACTION_INPUT_BYTES, MAX_REDACTION_OUTPUT_BYTES);
  }

  // ----- Redaction of several records as one stream

  lemma {:induction false} FlattenPrefix<T>(parts: seq<seq<T>>, n: nat)
    requires n <= |parts|
    ensures Flatten(parts) == Flatten(parts[..n]) + Flatten(parts[n..])
    ensures n < |parts| ==> Flatten(parts[..n + 1]) == Flatten(parts[..n]) + parts[n]
  {
    assert parts == parts[..n] + parts[n..];
    FlattenAppend(parts[..n], parts[n..]);
    if n < |parts| {
      assert parts[..n + 1] == parts[..n] + [parts[n]];
      FlattenAppend(parts[..n], [parts[n]]);
      assert Flatten([parts[n]]) == parts[n] + Flatten([]);
    }
  }

  /** Cuts the redacted stream back at the original record boundaries. */
  method SplitRedactedSegments(combined: Bytes, inputs: seq<Bytes>)
    returns (r: Result<seq<Bytes>, RedactionError>)
    ensures r.Ok? <==> |combined| == |Flatten(inputs)|
    ensures r.Ok? ==>
      && Flatten(r.value) == combined
      && |r.value| == |inputs|
      && forall i :: 0 <= i < |inputs| ==> |r.value[i]| == |inputs[i]|
    ensures r.Err? ==> r.error == RedactionOutputTooLarge
  {
    var output: seq<Bytes>, cursor := [], 0;
    for i := 0 to |inputs|
      invariant cursor == |Flatten(inputs[..i])| <= |combined|
      invariant |output| == i && forall k :: 0 <= k < i ==> |output[k]| == |inputs[k]|
      invariant Flatten(output) == combined[..cursor]
    {
      FlattenPrefix(inputs, i);
      FlattenPrefix(inputs, i + 1);
      var end := cursor + |inputs[i]|;
      if end > |combined| {
        return Err(RedactionOutputTooLarge);
      }
      ghost var before := output;
      output := output + [combined[cursor..end]];
      FlattenAppend(before, [combined[cursor..end]]);
      assert Flatten([combined[cursor..end]]) == combined[cursor..end] + Flatten([]);
      assert combined[..end] == combined[..cursor] + combined[cursor..end];
      cursor := end;
    }
    assert inputs[..|inputs|] == inputs;
    if cursor != |combined| {
      return Err(RedactionOutputTooLarge);
    }
    assert combined[..cursor] == combined;
    r := Ok(output);
  }

  /** The records end to end, or an error once they exceed the aggregate limit. */
  method Concatenate(inputs: seq<Bytes>) returns (r: Result<Bytes, RedactionError>)
    ensures r == if |Flatten(inputs)| > MAX_REDACTION_OUTPUT_BYTES
                 then Err(RedactionOutputTooLarge) else Ok(Flatten(inputs))
  {
    var totalBytes := 0;
    var current: Bytes := [];
    for i := 0 to |inputs|
      invariant current == Flatten(inputs[..i])
      invariant totalBytes == |current| <= MAX_REDACTION_OUTPUT_BYTES
    {
      FlattenPrefix(inputs, i);
      FlattenPrefix(inputs, i + 1);
      totalBytes := totalBytes + |inputs[i]|;
      if totalBytes > MAX_REDACTION_OUTPUT_BYTES {
        return Err(RedactionOutputTooLarge);
      }
      current := current + inputs[i];
    }
    assert inputs[..|inputs|] == inputs;
    r := Ok(current);
  }

  /** A scan that stands at `cursor` has finished everything before it and touched nothing after. */
  ghost predicate InPlace(redactor: Redactor, original: Bytes, now: Bytes, cursor: nat) {
    var patterns, r := redactor.PatternSet(), redactor.replacement;
    && cursor <= |now| == |original|
    && now[cursor..] == original[cursor..]
    && now[..cursor] + Keep(patterns, r, original[cursor..]) == Keep(patterns, r, original)
  }

  /** `now` with the bytes from `start` to `end` overwritten. */
  function Overwrite(now: Bytes, start: nat, end: nat, b: byte): (r: Bytes)
    requires start <= end <= |now|
    ensures |r| == |now|
    ensures forall i :: 0 <= i < |now| ==> r[i] == if start <= i < end then b else now[i]
  {
    now[..start] + Fill(b, end - start) + now[end..]
  }

  lemma InPlaceStart(redactor: Redactor, original: Bytes)
    ensures InPlace(redactor, original, original, 0)
  {
    assert original[0..] == original;
  }

  /** What lies ahead of the scan still reads as it did at the start. */
  lemma InPlaceAhead(redactor: Redactor, original: Bytes, now: Bytes, cursor: nat)
    requires InPlace(redactor, original, now, cursor)
    ensures forall q :: cursor <= q <= |now| ==> now[q..] == original[q..]
  {
    forall q | cursor <= q <= |now|
      ensures now[q..] == original[q..]
    {
      assert now[q..] == now[cursor..][q - cursor..];
      assert original[q..] == original[cursor..][q - cursor..];
    }
  }

  lemma OverwriteParts(original: Bytes, now: Bytes, cursor: nat, start: nat, end: nat, b: byte)
    requires cursor <= start <= end <= |now| == |original|
    requires now[cursor..] == original[cursor..]
    ensures Overwrite(now, start, end, b)[..end] == now[..cursor] + (original[cursor..start] + Fill(b, end - start))
    ensures Overwrite(now, start, end, b)[end..] == original[end..]
  {
    forall i | cursor <= i < |now|
      ensures now[i] == original[i]
    {
      assert now[i] == now[cursor..][i - cursor];
      assert original[i] == original[cursor..][i - cursor];
    }
  }

  lemma InPlaceMatch(redactor: Redactor, original: Bytes, now: Bytes, cursor: nat, span: Span)
    requires InPlace(redactor, original, now, cursor)
    requires cursor <= span.start < span.end <= |original|
    requires Longest(redactor.PatternSet(), original[span.start..]) == span.end - span.start
    requires forall q :: cursor <= q < span.start ==> Longest(redactor.PatternSet(), original[q..]) == 0
    ensures InPlace(redactor, original, Overwrite(now, span.start, span.end, redactor.replacement), span.end)
  {
    hide Keep;
    MatchRenders(redactor, original, cursor, span);
    OverwriteParts(original, now, cursor, span.start, span.end, redactor.replacement);
    var middle := original[cursor..span.start] + Fill(redactor.replacement, span.end - span.start);
    var rest := Keep(redactor.PatternSet(), redactor.replacement, original[span.end..]);
    assert now[..cursor] + middle + rest == now[..cursor] + (middle + rest);
  }

  lemma InPlaceEnd(redactor: Redactor, original: Bytes, now: Bytes, cursor: nat)
    requires InPlace(redactor, original, now, cursor)
    requires forall q :: cursor <= q < |original| ==> Longest(redactor.PatternSet(), original[q..]) == 0
    ensures now == Keep(redactor.PatternSet(), redactor.replacement, original)
  {
    TailRenders(redactor, original, cursor);
    assert now == now[..cursor] + now[cursor..];
  }

  /** Overwrites every match of the buffer in place, leaving its length-preserving redaction. */
  method RedactBuffer(redactor: Redactor, current: array<byte>)
    returns (r: Result<(), RedactionError>)
    requires redactor.Valid()
    modifies current
    ensures r.Ok? ==> current[..] == Keep(redactor.PatternSet(), redactor.replacement, old(current[..]))
    ensures r.Err? ==>
      && r.error == RedactionWorkLimitExceeded
      && current.Length * TotalBytes(redactor.patterns) > MAX_REDACTION_COMPARISON_BYTES
  {
    hide Redactor.Valid, InPlace;
    ghost var total := TotalBytes(redactor.patterns);
    ghost var original := current[..];
    var cursor: nat, compared: nat := 0, 0;
    InPlaceStart(redactor, original);
    while true
      invariant cursor <= current.Length
      invariant InPlace(redactor, original, current[..], cursor)
      invariant compared <= Work(cursor, total)
      decreases current.Length - cursor
    {
      var found;
      InPlaceAhead(redactor, original, current[..], cursor);
      found, compared := FindNext(redactor, current[..], cursor, compared);
      WorkUpTo(cursor, current.Length, current.Length, total);
      WorkIsProduct(current.Length, total);
      if found.Err? {
        return Err(found.error);
      }
      if found.value.None? {
        break;
      }
      var span := found.value.value;
      InPlaceMatch(redactor, original, current[..], cursor, span);
      WorkUpTo(cursor, span.start + 1, span.end, total);
      ghost var next := Overwrite(current[..], span.start, span.end, redactor.replacement);
      forall k | span.start <= k < span.end {
        current[k] := redactor.replacement;
      }
      assert current[..] == next;
      cursor := span.end;
    }
    InPlaceEnd(redactor, original, current[..], cursor);
    r := Ok(());
  }

  /**
   One persistence batch redacted as a single stream: a pattern split across records is found, the
   record boundaries are restored, and no pattern occurs anywhere across the joined outputs.
   */
  method RedactSegments(redactor: Redactor, inputs: seq<Bytes>)
    returns (r: Result<seq<Bytes>, RedactionError>)
    requires redactor.Valid()
    ensures r.Ok? ==>
      && Flatten(r.value) == Keep(redactor.PatternSet(), redactor.replacement, Flatten(inputs))
      && FreeOf(redactor.PatternSet(), Flatten(r.value))
      && |r.value| == |inputs|
      && forall i :: 0 <= i < |inputs| ==> |r.value[i]| == |inputs[i]|
    ensures r == Err(RedactionOutputTooLarge) <==> |Flatten(inputs)| > MAX_REDACTION_OUTPUT_BYTES
    ensures
      (|Flatten(inputs)| <= MAX_REDACTION_OUTPUT_BYTES
       && |Flatten(inputs)| * TotalBytes(redactor.patterns) <= MAX_REDACTION_COMPARISON_BYTES) ==> r.Ok?
    ensures r.Err? ==> r.error in {RedactionOutputTooLarge, RedactionWorkLimitExceeded}
  {
    ghost var patterns, text := redactor.PatternSet(), Flatten(inputs);
    KeepIsBytewise(patterns, redactor.replacement, text);
    NoPatternSurvives(patterns, redactor.replacement, text);
    var joined := Concatenate(inputs);
    if joined.Err? {
      return Err(joined.error);
    }
    if redactor.patterns == [] {
      assert patterns == {};
      NoPatternsNoChange(redactor.replacement, text);
      return Ok(inputs);
    }
    var bytes := joined.value;
    var current := new byte[|bytes|](i requires 0 <= i < |bytes| => bytes[i]);
    assert current[..] == bytes;
    var done := RedactBuffer(redactor, current);
    if done.Err? {
      return Err(done.error);
    }
    r := SplitRedactedSegments(current[..], inputs);
  }
}
