/** The shell-like splitter: quoting without any shell evaluation. */
module InertWords {
  import opened Bytes
  import opened Text

  datatype SplitError = InvalidRuntimeParameter

  // ----- Meaning, one character at a time

  datatype Mode = Between | InWord | InSingle | InDouble | AfterBackslash

  predicate IsBlank(c: char) {
    c == ' ' || c == '\t' || c == '\n'
  }

  /** The words of `rest`, given the mode and the word collected so far; `None` if a quote stays open. */
  function Scan(mode: Mode, current: string, rest: string): Option<seq<string>>
    decreases |rest|
  {
    if rest == "" then
      match mode
      case Between => Some([])
      case InWord => Some([current])
      case _ => None
    else
      var c, tail := rest[0], rest[1..];
      match mode
      case Between =>
        if IsBlank(c) then Scan(Between, "", tail)
        else if c == '\'' then Scan(InSingle, "", tail)
        else if c == '"' then Scan(InDouble, "", tail)
        else Scan(InWord, [c], tail)
      case InWord =>
        if IsBlank(c) then Prepend([current], Scan(Between, "", tail))
        else if c == '\'' then Scan(InSingle, current, tail)
        else if c == '"' then Scan(InDouble, current, tail)
        else Scan(InWord, current + [c], tail)
      case InSingle =>
        if c == '\'' then Scan(InWord, current, tail) else Scan(InSingle, current + [c], tail)
      case InDouble =>
        if c == '"' then Scan(InWord, current, tail)
        else if c == '\\' then Scan(AfterBackslash, current, tail)
        else Scan(InDouble, current + [c], tail)
      case AfterBackslash =>
        if c == '"' || c == '\\' then Scan(InDouble, current + [c], tail)
        else Scan(InDouble, current + ['\\', c], tail)
  }

  function Prepend(words: seq<string>, more: Option<seq<string>>): Option<seq<string>> {
    match more
    case None => None
    case Some(rest) => Some(words + rest)
  }

  function Split(source: string): Option<seq<string>> {
    Scan(Between, "", source)
  }

  // ----- The scanner

  /** What is left to find once `words` are finished and `mode` and `current` describe the rest. */
  ghost predicate Scanned(source: string, i: nat, words: seq<string>, mode: Mode, current: string) {
    i <= |source| && Split(source) == Prepend(words, Scan(mode, current, source[i..]))
  }

  lemma PrependAdds(words: seq<string>, more: seq<string>, rest: Option<seq<string>>)
    ensures Prepend(words, Prepend(more, rest)) == Prepend(words + more, rest)
    ensures Prepend([], rest) == rest
  {
    if rest.Some? {
      assert words + (more + rest.value) == words + more + rest.value;
      assert [] + rest.value == rest.value;
    }
  }

  lemma ScannedStep(source: string, i: nat, words: seq<string>, mode: Mode, current: string)
    requires Scanned(source, i, words, mode, current) && i < |source|
    ensures source[i..][0] == source[i] && source[i..][1..] == source[i + 1..]
  {
  }

  /** Reads a single-quoted stretch up to its closing quote. */
  method ReadSingle(source: string, start: nat, ghost words: seq<string>, word: string)
    returns (r: Result<string, SplitError>, i: nat)
    requires Scanned(source, start, words, InSingle, word)
    ensures r.Ok? ==> start < i && Scanned(source, i, words, InWord, r.value)
    ensures r.Err? ==> Split(source).None?
  {
    i := start;
    var current := word;
    while i < |source|
      invariant start <= i && Scanned(source, i, words, InSingle, current)
    {
      ScannedStep(source, i, words, InSingle, current);
      if source[i] == '\'' {
        return Ok(current), i + 1;
      }
      current := current + [source[i]];
      i := i + 1;
    }
    return Err(InvalidRuntimeParameter), i;
  }

  /** Reads a double-quoted stretch, in which a backslash escapes only a quote or a backslash. */
  method ReadDouble(source: string, start: nat, ghost words: seq<string>, word: string)
    returns (r: Result<string, SplitError>, i: nat)
    requires Scanned(source, start, words, InDouble, word)
    ensures r.Ok? ==> start < i && Scanned(source, i, words, InWord, r.value)
    ensures r.Err? ==> Split(source).None?
  {
    i := start;
    var current := word;
    while i < |source|
      invariant start <= i && Scanned(source, i, words, InDouble, current)
    {
      ScannedStep(source, i, words, InDouble, current);
      if source[i] == '"' {
        return Ok(current), i + 1;
      }
      if source[i] == '\\' {
        i := i + 1;
        assert Scanned(source, i, words, AfterBackslash, current);
        if i < |source| {
          ScannedStep(source, i, words, AfterBackslash, current);
          if source[i] == '"' {
            current := current + ['"'];
          } else if source[i] == '\\' {
            current := current + ['\\'];
          } else {
            current := current + ['\\', source[i]];
          }
          i := i + 1;
        } else {
          assert source[i..] == "";
          current := current + ['\\'];
        }
      } else {
        current := current + [source[i]];
        i := i + 1;
      }
    }
    return Err(InvalidRuntimeParameter), i;
  }

  method SplitInertWords(source: string) returns (r: Result<seq<string>, SplitError>)
    ensures r.Ok? <==> Split(source).Some?
    ensures r.Ok? ==> r.value == Split(source).value
  {
    var words: seq<string>, current: string, inWord := [], "", false;
    var i: nat := 0;
    assert source[0..] == source;
    PrependAdds([], [], Split(source));
    while i < |source|
      invariant Scanned(source, i, words, if inWord then InWord else Between, current)
      invariant !inWord ==> current == ""
      decreases |source| - i
    {
      ScannedStep(source, i, words, if inWord then InWord else Between, current);
      var character := source[i];
      i := i + 1;
      if IsBlank(character) {
        if inWord {
          PrependAdds(words, [current], Scan(Between, "", source[i..]));
          words, current := words + [current], "";
          inWord := false;
        }
      } else if character == '\'' {
        inWord := true;
        var quoted;
        quoted, i := ReadSingle(source, i, words, current);
        if quoted.Err? {
          return Err(quoted.error);
        }
        current := quoted.value;
      } else if character == '"' {
        inWord := true;
        var quoted;
        quoted, i := ReadDouble(source, i, words, current);
        if quoted.Err? {
          return Err(quoted.error);
        }
        current := quoted.value;
      } else {
        inWord := true;
        assert current == "" ==> current + [character] == [character];
        current := current + [character];
      }
    }
    assert source[i..] == "";
    if inWord {
      words := words + [current];
    }
    r := Ok(words);
  }

  // ----- Conservation

  /** Splitting never makes bytes: the words together are no longer than what they were read from. */
  lemma {:induction false} ScanConservesBytes(mode: Mode, current: string, rest: string)
    requires Scan(mode, current, rest).Some?
    ensures TotalByteLen(Scan(mode, current, rest).value)
         <= ByteLen(current) + ByteLen(rest) + if mode == AfterBackslash then 1 else 0
    decreases |rest|
  {
    if rest == "" {
      assert TotalByteLen([current]) == ByteLen(current) + TotalByteLen([]);
    } else {
      var c, tail := rest[0], rest[1..];
      ByteLenAppend(current, [c]);
      ByteLenAppend(current, ['\\', c]);
      ByteLenAppend(['\\'], [c]);
      assert ['\\', c] == ['\\'] + [c];
      assert ByteLen([c]) == Utf8Width(c) && ByteLen(['\\']) == 1;
      match mode {
        case Between =>
          if IsBlank(c) { ScanConservesBytes(Between, "", tail); }
          else if c == '\'' { ScanConservesBytes(InSingle, "", tail); }
          else if c == '"' { ScanConservesBytes(InDouble, "", tail); }
          else { ScanConservesBytes(InWord, [c], tail); }
        case InWord =>
          if IsBlank(c) {
            ScanConservesBytes(Between, "", tail);
            var later := Scan(Between, "", tail).value;
            TotalByteLenAppend([current], later);
            assert TotalByteLen([current]) == ByteLen(current) + TotalByteLen([]);
          }
          else if c == '\'' { ScanConservesBytes(InSingle, current, tail); }
          else if c == '"' { ScanConservesBytes(InDouble, current, tail); }
          else { ScanConservesBytes(InWord, current + [c], tail); }
        case InSingle =>
          if c == '\'' { ScanConservesBytes(InWord, current, tail); }
          else { ScanConservesBytes(InSingle, current + [c], tail); }
        case InDouble =>
          if c == '"' { ScanConservesBytes(InWord, current, tail); }
          else if c == '\\' { ScanConservesBytes(AfterBackslash, current, tail); }
          else { ScanConservesBytes(InDouble, current + [c], tail); }
        case AfterBackslash =>
          if c == '"' || c == '\\' { ScanConservesBytes(InDouble, current + [c], tail); }
          else { ScanConservesBytes(InDouble, current + ['\\', c], tail); }
      }
    }
  }

  lemma SplitConservesBytes(source: string)
    requires Split(source).Some?
    ensures TotalByteLen(Split(source).value) <= ByteLen(source)
  {
    ScanConservesBytes(Between, "", source);
  }

  // ----- Round trip

  function Escape(word: string): string {
    if word == "" then ""
    else (if word[0] == '"' || word[0] == '\\' then ['\\', word[0]] else [word[0]]) + Escape(word[1..])
  }

  function Quote(word: string): string {
    ['"'] + Escape(word) + ['"']
  }

  function JoinQuoted(words: seq<string>): string {
    if words == [] then ""
    else if |words| == 1 then Quote(words[0])
    else Quote(words[0]) + [' '] + JoinQuoted(words[1..])
  }

  /** One escaped character is read back as itself. */
  lemma ScanEscapedCharacter(current: string, c: char, later: string)
    ensures Scan(InDouble, current, (if c == '"' || c == '\\' then ['\\', c] else [c]) + later)
         == Scan(InDouble, current + [c], later)
  {
    if c == '"' || c == '\\' {
      assert (['\\', c] + later)[1..] == [c] + later;
      assert Scan(AfterBackslash, current, [c] + later) == Scan(InDouble, current + [c], later);
    }
  }

  lemma {:induction false} ScanEscaped(current: string, word: string, rest: string)
    ensures Scan(InDouble, current, Escape(word) + ['"'] + rest) == Scan(InWord, current + word, rest)
    decreases |word|
  {
    if word == "" {
      assert Escape(word) + ['"'] + rest == ['"'] + rest;
      assert current + word == current;
    } else {
      hide Scan;
      var c := word[0];
      var later := Escape(word[1..]) + ['"'] + rest;
      ScanEscaped(current + [c], word[1..], rest);
      ScanEscapedCharacter(current, c, later);
      assert current + word == current + [c] + word[1..];
      var head := if c == '"' || c == '\\' then ['\\', c] else [c];
      assert Escape(word) + ['"'] + rest == head + later;
    }
  }

  /** Any words, empty ones and ones with quotes or blanks included, come back from their quoted form. */
  lemma {:induction false} QuotedWordsComeBack(words: seq<string>)
    ensures Split(JoinQuoted(words)) == Some(words)
    decreases |words|
  {
    if words != [] {
      var word := words[0];
      var rest := if |words| == 1 then "" else [' '] + JoinQuoted(words[1..]);
      assert JoinQuoted(words) == ['"'] + (Escape(word) + ['"'] + rest);
      ScanEscaped("", word, rest);
      assert "" + word == word;
      if |words| == 1 {
        assert words == [word];
      } else {
        QuotedWordsComeBack(words[1..]);
        assert rest[1..] == JoinQuoted(words[1..]);
        assert words == [word] + words[1..];
      }
    }
  }
}
