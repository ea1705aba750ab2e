/**
 The whole quoting syntax against the splitter. A source is blanks and words; a word is a run of adjacent
 pieces, each bare, single-quoted or double-quoted. Splitting a source returns what its words stand for,
 and a quote that is never closed makes it fail.
 */
module QuotingSyntax {
  import opened Bytes
  import InertWords

  datatype Item = Verbatim(c: char) | AfterBackslash(c: char)

  datatype Piece = Bare(text: string) | Single(text: string) | Double(items: seq<Item>)

  type Word = seq<Piece>

  /** A word and the blanks behind it. */
  datatype Spaced = Spaced(word: Word, gap: string)

  // ----- Well-formed sources

  predicate Blanks(s: string) {
    forall i :: 0 <= i < |s| ==> s[i] == ' ' || s[i] == '\t' || s[i] == '\n'
  }

  predicate ItemsOk(items: seq<Item>) {
    forall i :: 0 <= i < |items| && items[i].Verbatim? ==> items[i].c != '"' && items[i].c != '\\'
  }

  predicate PieceOk(piece: Piece) {
    match piece
    case Bare(text) =>
      text != "" && forall i :: 0 <= i < |text| ==> text[i] !in [' ', '\t', '\n', '\'', '"']
    case Single(text) => '\'' !in text
    case Double(items) => ItemsOk(items)
  }

  predicate WordOk(word: Word) {
    word != [] && forall i :: 0 <= i < |word| ==> PieceOk(word[i])
  }

  /** Words are separated by at least one blank; behind the last one blanks may be missing. */
  predicate SourceOk(words: seq<Spaced>) {
    && (forall i :: 0 <= i < |words| ==> WordOk(words[i].word) && Blanks(words[i].gap))
    && (forall i :: 0 <= i < |words| - 1 ==> words[i].gap != "")
  }

  // ----- How it is written

  function RenderItem(item: Item): string {
    if item.Verbatim? then [item.c] else ['\\', item.c]
  }

  function RenderItems(items: seq<Item>): string {
    if items == [] then "" else RenderItem(items[0]) + RenderItems(items[1..])
  }

  function RenderPiece(piece: Piece): string {
    match piece
    case Bare(text) => text
    case Single(text) => ['\''] + text + ['\'']
    case Double(items) => ['"'] + RenderItems(items) + ['"']
  }

  function RenderWord(word: Word): string {
    if word == [] then "" else RenderPiece(word[0]) + RenderWord(word[1..])
  }

  function RenderSource(words: seq<Spaced>): string {
    if words == [] then "" else RenderWord(words[0].word) + words[0].gap + RenderSource(words[1..])
  }

  // ----- What it stands for

  /** A backslash disappears before a double quote and before a backslash, and otherwise stays. */
  function ItemText(item: Item): string {
    if item.AfterBackslash? && item.c != '"' && item.c != '\\' then ['\\', item.c] else [item.c]
  }

  function ItemsText(items: seq<Item>): string {
    if items == [] then "" else ItemText(items[0]) + ItemsText(items[1..])
  }

  function PieceText(piece: Piece): string {
    match piece
    case Bare(text) => text
    case Single(text) => text
    case Double(items) => ItemsText(items)
  }

  function WordText(word: Word): string {
    if word == [] then "" else PieceText(word[0]) + WordText(word[1..])
  }

  function WordTexts(words: seq<Spaced>): seq<string> {
    if words == [] then [] else [WordText(words[0].word)] + WordTexts(words[1..])
  }

  // ----- Scanning it

  lemma {:induction false} ScanBlanks(blanks: string, rest: string)
    requires Blanks(blanks)
    ensures InertWords.Scan(InertWords.Between, "", blanks + rest) == InertWords.Scan(InertWords.Between, "", rest)
  {
    if blanks == "" {
      assert blanks + rest == rest;
    } else {
      assert (blanks + rest)[1..] == blanks[1..] + rest;
      ScanBlanks(blanks[1..], rest);
    }
  }

  lemma {:induction false} ScanBare(current: string, text: string, rest: string)
    requires forall i :: 0 <= i < |text| ==> text[i] !in [' ', '\t', '\n', '\'', '"']
    ensures InertWords.Scan(InertWords.InWord, current, text + rest)
         == InertWords.Scan(InertWords.InWord, current + text, rest)
    decreases |text|
  {
    if text == "" {
      assert text + rest == rest && current + text == current;
    } else {
      assert (text + rest)[1..] == text[1..] + rest;
      ScanBare(current + [text[0]], text[1..], rest);
      assert current + [text[0]] + text[1..] == current + text;
    }
  }

  lemma {:induction false} ScanSingle(current: string, text: string, rest: string)
    requires '\'' !in text
    ensures InertWords.Scan(InertWords.InSingle, current, text + ['\''] + rest)
         == InertWords.Scan(InertWords.InWord, current + text, rest)
    decreases |text|
  {
    if text == "" {
      assert text + ['\''] + rest == ['\''] + rest && current + text == current;
    } else {
      assert (text + ['\''] + rest)[1..] == text[1..] + ['\''] + rest;
      assert '\'' !in text[1..];
      ScanSingle(current + [text[0]], text[1..], rest);
      assert current + [text[0]] + text[1..] == current + text;
    }
  }

  /** One item of a double-quoted piece. */
  lemma ScanItem(current: string, item: Item, later: string)
    requires item.Verbatim? ==> item.c != '"' && item.c != '\\'
    ensures InertWords.Scan(InertWords.InDouble, current, RenderItem(item) + later)
         == InertWords.Scan(InertWords.InDouble, current + ItemText(item), later)
  {
    if item.AfterBackslash? {
      assert (['\\', item.c] + later)[1..] == [item.c] + later;
      assert InertWords.Scan(InertWords.InDouble, current, ['\\', item.c] + later)
        == InertWords.Scan(InertWords.AfterBackslash, current, [item.c] + later);
      assert ([item.c] + later)[1..] == later;
    }
  }

  lemma {:induction false} ScanItems(current: string, items: seq<Item>, rest: string)
    requires ItemsOk(items)
    ensures InertWords.Scan(InertWords.InDouble, current, RenderItems(items) + rest)
         == InertWords.Scan(InertWords.InDouble, current + ItemsText(items), rest)
    decreases |items|
  {
    if items == [] {
      assert RenderItems(items) + rest == rest && current + ItemsText(items) == current;
    } else {
      hide InertWords.Scan;
      var later := RenderItems(items[1..]) + rest;
      assert RenderItems(items) + rest == RenderItem(items[0]) + later;
      ScanItem(current, items[0], later);
      ScanItems(current + ItemText(items[0]), items[1..], rest);
      assert current + ItemText(items[0]) + ItemsText(items[1..]) == current + ItemsText(items);
    }
  }

  lemma ScanBarePiece(current: string, started: bool, text: string, rest: string)
    requires PieceOk(Bare(text)) && (started || current == "")
    ensures InertWords.Scan(if started then InertWords.InWord else InertWords.Between, current, text + rest)
         == InertWords.Scan(InertWords.InWord, current + text, rest)
  {
    if started {
      ScanBare(current, text, rest);
    } else {
      var first, later := text[0], text[1..] + rest;
      assert text + rest == [first] + later;
      assert InertWords.Scan(InertWords.Between, "", [first] + later) == InertWords.Scan(InertWords.InWord, [first], later) by {
        assert ([first] + later)[1..] == later;
      }
      hide InertWords.Scan;
      ScanBare([first], text[1..], rest);
      assert [first] + text[1..] == current + text;
    }
  }

  lemma ScanQuotedPiece(current: string, started: bool, piece: Piece, rest: string)
    requires PieceOk(piece) && !piece.Bare? && (started || current == "")
    ensures InertWords.Scan(if started then InertWords.InWord else InertWords.Between, current, RenderPiece(piece) + rest)
         == InertWords.Scan(InertWords.InWord, current + PieceText(piece), rest)
  {
    var inner := if piece.Single? then piece.text + ['\''] + rest else RenderItems(piece.items) + (['"'] + rest);
    var open := if piece.Single? then '\'' else '"';
    assert RenderPiece(piece) + rest == [open] + inner;
    assert ([open] + inner)[1..] == inner;
    if piece.Single? {
      assert InertWords.Scan(if started then InertWords.InWord else InertWords.Between, current, [open] + inner)
        == InertWords.Scan(InertWords.InSingle, current, inner);
      hide InertWords.Scan;
      ScanSingle(current, piece.text, rest);
    } else {
      assert InertWords.Scan(if started then InertWords.InWord else InertWords.Between, current, [open] + inner)
        == InertWords.Scan(InertWords.InDouble, current, inner);
      CloseDouble(current + ItemsText(piece.items), rest);
      hide InertWords.Scan;
      ScanItems(current, piece.items, ['"'] + rest);
    }
  }

  lemma CloseDouble(current: string, rest: string)
    ensures InertWords.Scan(InertWords.InDouble, current, ['"'] + rest) == InertWords.Scan(InertWords.InWord, current, rest)
  {
    assert (['"'] + rest)[1..] == rest;
  }

  /** A piece is read the same at the start of a word and inside it. */
  lemma ScanPiece(current: string, started: bool, piece: Piece, rest: string)
    requires PieceOk(piece) && (started || current == "")
    ensures InertWords.Scan(if started then InertWords.InWord else InertWords.Between, current, RenderPiece(piece) + rest)
         == InertWords.Scan(InertWords.InWord, current + PieceText(piece), rest)
  {
    hide InertWords.Scan;
    if piece.Bare? {
      ScanBarePiece(current, started, piece.text, rest);
    } else {
      ScanQuotedPiece(current, started, piece, rest);
    }
  }

  lemma {:induction false} ScanWord(current: string, started: bool, word: Word, rest: string)
    requires forall i :: 0 <= i < |word| ==> PieceOk(word[i])
    requires (started || current == "") && (started || word != [])
    ensures InertWords.Scan(if started then InertWords.InWord else InertWords.Between, current, RenderWord(word) + rest)
         == InertWords.Scan(InertWords.InWord, current + WordText(word), rest)
    decreases |word|
  {
    if word == [] {
      assert RenderWord(word) + rest == rest && current + WordText(word) == current;
    } else {
      hide InertWords.Scan;
      assert RenderWord(word) + rest == RenderPiece(word[0]) + (RenderWord(word[1..]) + rest);
      ScanPiece(current, started, word[0], RenderWord(word[1..]) + rest);
      ScanWord(current + PieceText(word[0]), true, word[1..], rest);
      assert current + PieceText(word[0]) + WordText(word[1..]) == current + WordText(word);
    }
  }

  /** The blanks behind a word complete it. */
  lemma ScanGap(text: string, gap: string, later: string)
    requires Blanks(gap) && gap != ""
    ensures InertWords.Scan(InertWords.InWord, text, gap + later)
         == InertWords.Prepend([text], InertWords.Scan(InertWords.Between, "", later))
  {
    assert gap + later == [gap[0]] + (gap[1..] + later);
    ScanBlanks(gap[1..], later);
  }

  lemma Reassociate(a: string, b: string, c: string, d: string)
    ensures a + b + c + d == a + (b + (c + d))
    ensures a + b + c + d == a + b + (c + d)
  {
  }

  /** Reading all words but for what follows the last of them. */
  lemma {:induction false} ScanWords(words: seq<Spaced>, rest: string)
    requires SourceOk(words) && (words != [] ==> words[|words| - 1].gap != "")
    ensures InertWords.Scan(InertWords.Between, "", RenderSource(words) + rest)
         == InertWords.Prepend(WordTexts(words), InertWords.Scan(InertWords.Between, "", rest))
    decreases |words|
  {
    hide InertWords.Scan, InertWords.Prepend, PieceOk, Blanks;
    if words == [] {
      assert RenderSource(words) + rest == rest;
      InertWords.PrependAdds([], [], InertWords.Scan(InertWords.Between, "", rest));
    } else {
      ScanWords(words[1..], rest);
      OneMoreWord(words, rest);
    }
  }

  lemma OneMoreWord(words: seq<Spaced>, rest: string)
    requires words != [] && WordOk(words[0].word) && Blanks(words[0].gap) && words[0].gap != ""
    requires InertWords.Scan(InertWords.Between, "", RenderSource(words[1..]) + rest)
          == InertWords.Prepend(WordTexts(words[1..]), InertWords.Scan(InertWords.Between, "", rest))
    ensures InertWords.Scan(InertWords.Between, "", RenderSource(words) + rest)
         == InertWords.Prepend(WordTexts(words), InertWords.Scan(InertWords.Between, "", rest))
  {
    var word, gap, source, texts := words[0].word, words[0].gap, RenderSource(words[1..]), WordTexts(words[1..]);
    var text := WordText(word);
    assert RenderSource(words) == RenderWord(word) + gap + source;
    assert WordTexts(words) == [text] + texts;
    hide RenderSource, RenderWord, WordTexts, WordText, InertWords.Scan, InertWords.Prepend, PieceOk, Blanks;
    Reassociate(RenderWord(word), gap, source, rest);
    ScanWord("", false, word, gap + (source + rest));
    EmptyPrefix(text);
    ScanGap(text, gap, source + rest);
    InertWords.PrependAdds([text], texts, InertWords.Scan(InertWords.Between, "", rest));
  }

  lemma EmptyPrefix(text: string)
    ensures "" + text == text
  {
  }

  lemma {:induction false} WordTextsAppend(a: seq<Spaced>, b: seq<Spaced>)
    ensures WordTexts(a + b) == WordTexts(a) + WordTexts(b)
  {
    if a == [] {
      assert a + b == b;
    } else {
      assert (a + b)[1..] == a[1..] + b;
      WordTextsAppend(a[1..], b);
    }
  }

  lemma {:induction false} RenderSourceJoin(a: seq<Spaced>, b: seq<Spaced>)
    ensures RenderSource(a + b) == RenderSource(a) + RenderSource(b)
  {
    if a == [] {
      assert a + b == b;
    } else {
      assert (a + b)[1..] == a[1..] + b && (a + b)[0] == a[0];
      RenderSourceJoin(a[1..], b);
      Reassociate(RenderWord(a[0].word), a[0].gap, RenderSource(a[1..]), RenderSource(b));
    }
  }

  /** A last word, with or without blanks behind it. */
  lemma ScanLast(last: Spaced)
    requires WordOk(last.word) && Blanks(last.gap)
    ensures InertWords.Scan(InertWords.Between, "", RenderWord(last.word) + last.gap) == Some([WordText(last.word)])
  {
    hide InertWords.Scan, PieceOk, RenderWord, WordText, Blanks;
    ScanWord("", false, last.word, last.gap);
    EmptyPrefix(WordText(last.word));
    LastGap(WordText(last.word), last.gap);
  }

  /** All words of a source, the last one with or without blanks behind it. */
  lemma SplitWords(first: seq<Spaced>, last: Spaced)
    requires SourceOk(first) && (first != [] ==> first[|first| - 1].gap != "")
    requires WordOk(last.word) && Blanks(last.gap)
    ensures InertWords.Scan(InertWords.Between, "", RenderSource(first) + (RenderWord(last.word) + last.gap))
         == Some(WordTexts(first) + [WordText(last.word)])
  {
    hide InertWords.Scan, PieceOk, RenderSource, RenderWord, WordTexts, WordText, Blanks;
    ScanWords(first, RenderWord(last.word) + last.gap);
    ScanLast(last);
  }

  lemma FirstWordsOk(first: seq<Spaced>, last: Spaced)
    requires SourceOk(first + [last])
    ensures SourceOk(first) && (first != [] ==> first[|first| - 1].gap != "")
    ensures WordOk(last.word) && Blanks(last.gap)
  {
    hide WordOk, Blanks;
    var all := first + [last];
    assert all[|first|] == last;
    assert forall i :: 0 <= i < |first| ==> first[i] == all[i];
  }

  /** Splitting any well-formed source, with any blanks around its words, returns what the words stand for. */
  lemma WordsComeBack(lead: string, words: seq<Spaced>)
    requires Blanks(lead) && SourceOk(words)
    ensures InertWords.Split(lead + RenderSource(words)) == Some(WordTexts(words))
  {
    ScanBlanks(lead, RenderSource(words));
    if words != [] {
      var first, last := words[..|words| - 1], words[|words| - 1];
      assert words == first + [last];
      FirstWordsOk(first, last);
      WordTextsAppend(first, [last]);
      RenderSourceAppend(first, last);
      assert WordTexts([last]) == [WordText(last.word)];
      hide InertWords.Scan, SourceOk, WordOk, RenderSource, RenderWord, WordTexts, WordText, Blanks;
      SplitWords(first, last);
    }
  }

  lemma LastGap(text: string, gap: string)
    requires Blanks(gap)
    ensures InertWords.Scan(InertWords.InWord, text, gap) == Some([text])
  {
    if gap != "" {
      ScanBlanks(gap[1..], "");
      assert gap[1..] + "" == gap[1..] && [text] + [] == [text];
    }
  }

  // ----- Open quotes

  lemma {:induction false} OpenSingle(current: string, text: string)
    requires '\'' !in text
    ensures InertWords.Scan(InertWords.InSingle, current, text).None?
    decreases |text|
  {
    if text != "" {
      assert '\'' !in text[1..];
      OpenSingle(current + [text[0]], text[1..]);
    }
  }

  lemma OpenDouble(current: string, items: seq<Item>)
    requires ItemsOk(items)
    ensures InertWords.Scan(InertWords.InDouble, current, RenderItems(items)).None?
    ensures InertWords.Scan(InertWords.InDouble, current, RenderItems(items) + ['\\']).None?
  {
    ScanItems(current, items, "");
    assert RenderItems(items) + "" == RenderItems(items);
    ScanItems(current, items, ['\\']);
    assert InertWords.Scan(InertWords.AfterBackslash, current + ItemsText(items), "").None?;
  }

  /** An opening quote and what stands behind it. */
  lemma ScanOpening(started: bool, current: string, quote: char, inner: string)
    requires (quote == '\'' || quote == '"') && (started || current == "")
    ensures InertWords.Scan(if started then InertWords.InWord else InertWords.Between, current, [quote] + inner)
         == InertWords.Scan(if quote == '"' then InertWords.InDouble else InertWords.InSingle, current, inner)
  {
    assert ([quote] + inner)[1..] == inner;
  }

  /**
   A quote that is never closed makes the whole source fail, whatever stands before it: complete words, and
   possibly the beginning of the word that the quote belongs to.
   */
  lemma OpenQuoteFails(lead: string, words: seq<Spaced>, begun: Word, text: string, items: seq<Item>)
    requires Blanks(lead) && SourceOk(words) && (words != [] ==> words[|words| - 1].gap != "")
    requires forall i :: 0 <= i < |begun| ==> PieceOk(begun[i])
    requires '\'' !in text && ItemsOk(items)
    ensures InertWords.Split(lead + (RenderSource(words) + (RenderWord(begun) + (['\''] + text)))).None?
    ensures InertWords.Split(lead + (RenderSource(words) + (RenderWord(begun) + (['"'] + RenderItems(items))))).None?
    ensures InertWords.Split(lead + (RenderSource(words) + (RenderWord(begun) + (['"'] + RenderItems(items) + ['\\'])))).None?
  {
    var started, current := begun != [], WordText(begun);
    OpenFails(lead, words, begun, ['\''] + text);
    OpenFails(lead, words, begun, ['"'] + RenderItems(items));
    OpenFails(lead, words, begun, ['"'] + RenderItems(items) + ['\\']);
    hide InertWords.Scan, InertWords.Split, RenderSource, RenderWord, RenderItems, PieceOk, Blanks;
    OpenSingle(current, text);
    ScanOpening(started, current, '\'', text);
    OpenDouble(current, items);
    ScanOpening(started, current, '"', RenderItems(items));
    assert ['"'] + RenderItems(items) + ['\\'] == ['"'] + (RenderItems(items) + ['\\']);
    ScanOpening(started, current, '"', RenderItems(items) + ['\\']);
  }

  /** What follows complete words and the beginning of another decides alone whether the source fails. */
  lemma OpenFails(lead: string, words: seq<Spaced>, begun: Word, rest: string)
    requires Blanks(lead) && SourceOk(words) && (words != [] ==> words[|words| - 1].gap != "")
    requires forall i :: 0 <= i < |begun| ==> PieceOk(begun[i])
    ensures InertWords.Split(lead + (RenderSource(words) + (RenderWord(begun) + rest))).None? <==>
      InertWords.Scan(if begun == [] then InertWords.Between else InertWords.InWord, WordText(begun), rest).None?
  {
    hide InertWords.Scan;
    ScanBlanks(lead, RenderSource(words) + (RenderWord(begun) + rest));
    ScanWords(words, RenderWord(begun) + rest);
    if begun == [] {
      assert RenderWord(begun) + rest == rest;
    } else {
      ScanWord("", false, begun, rest);
      assert "" + WordText(begun) == WordText(begun);
    }
  }

  // ----- Every source

  datatype Open = NoQuote | InSingleQuotes(text: string) | InDoubleQuotes(items: seq<Item>) | BehindBackslash(items: seq<Item>)

  /** Complete words, the finished pieces of the word that has begun, and the quote that is still open. */
  datatype Layout = Layout(lead: string, words: seq<Spaced>, begun: Word, open: Open)

  predicate LayoutOk(layout: Layout) {
    && Blanks(layout.lead) && SourceOk(layout.words)
    && (layout.words != [] ==> layout.words[|layout.words| - 1].gap != "")
    && (forall i :: 0 <= i < |layout.begun| ==> PieceOk(layout.begun[i]))
    && match layout.open
       case NoQuote => true
       case InSingleQuotes(text) => '\'' !in text
       case InDoubleQuotes(items) => ItemsOk(items)
       case BehindBackslash(items) => ItemsOk(items)
  }

  function RenderOpen(open: Open): string {
    match open
    case NoQuote => ""
    case InSingleQuotes(text) => ['\''] + text
    case InDoubleQuotes(items) => ['"'] + RenderItems(items)
    case BehindBackslash(items) => ['"'] + RenderItems(items) + ['\\']
  }

  function RenderLayout(layout: Layout): string {
    layout.lead + (RenderSource(layout.words) + (RenderWord(layout.begun) + RenderOpen(layout.open)))
  }

  lemma {:induction false} RenderItemsAppend(items: seq<Item>, item: Item)
    ensures RenderItems(items + [item]) == RenderItems(items) + RenderItem(item)
  {
    if items == [] {
      assert items + [item] == [item] && [item][1..] == [];
    } else {
      assert (items + [item])[1..] == items[1..] + [item];
      RenderItemsAppend(items[1..], item);
    }
  }

  lemma {:induction false} RenderWordAppend(word: Word, piece: Piece)
    ensures RenderWord(word + [piece]) == RenderWord(word) + RenderPiece(piece)
  {
    if word == [] {
      assert word + [piece] == [piece] && [piece][1..] == [];
    } else {
      assert (word + [piece])[1..] == word[1..] + [piece];
      RenderWordAppend(word[1..], piece);
    }
  }

  lemma RenderSourceAppend(words: seq<Spaced>, last: Spaced)
    ensures RenderSource(words + [last]) == RenderSource(words) + (RenderWord(last.word) + last.gap)
  {
    RenderSourceJoin(words, [last]);
    assert [last][1..] == [];
    assert RenderSource([last]) == RenderWord(last.word) + last.gap + "";
  }

  /** A layout grows by a character if its word and open quote do. */
  lemma Grows(layout: Layout, next: Layout, c: char)
    requires next.lead == layout.lead && next.words == layout.words
    requires RenderWord(next.begun) + RenderOpen(next.open) == RenderWord(layout.begun) + RenderOpen(layout.open) + [c]
    ensures RenderLayout(next) == RenderLayout(layout) + [c]
  {
    var lead, words := layout.lead, RenderSource(layout.words);
    var before := RenderWord(layout.begun) + RenderOpen(layout.open);
    assert lead + (words + (before + [c])) == lead + (words + before) + [c];
  }

  lemma CompletedRenders(lead: string, words: seq<Spaced>, word: Word, c: char)
    ensures lead + RenderSource(words + [Spaced(word, [c])]) == lead + (RenderSource(words) + RenderWord(word)) + [c]
  {
    RenderSourceAppend(words, Spaced(word, [c]));
    Reassociate(lead, RenderSource(words), RenderWord(word), [c]);
    var a, b := RenderSource(words), RenderWord(word);
    hide RenderSource, RenderWord;
    assert lead + (a + b) == lead + a + b;
  }

  /** A blank behind a word completes it. */
  lemma AfterWord(layout: Layout, c: char) returns (next: Layout)
    requires LayoutOk(layout) && layout.open.NoQuote? && Blanks([c]) && layout.begun != []
    ensures LayoutOk(next) && RenderLayout(next) == RenderLayout(layout) + [c]
  {
    hide PieceOk, RenderSource, Blanks;
    next := Layout(layout.lead, layout.words + [Spaced(layout.begun, [c])], [], NoQuote);
    CompletedRenders(layout.lead, layout.words, layout.begun, c);
    EmptyWordAddsNothing(next);
    var word := RenderWord(layout.begun);
    assert word + "" == word;
  }

  lemma LongerGap(lead: string, first: seq<Spaced>, last: Spaced, c: char)
    ensures lead + RenderSource(first + [last.(gap := last.gap + [c])]) == lead + RenderSource(first + [last]) + [c]
  {
    var longer := last.(gap := last.gap + [c]);
    RenderSourceAppend(first, last);
    RenderSourceAppend(first, longer);
    var before, word, gap := RenderSource(first), RenderWord(last.word), last.gap;
    hide RenderSource, RenderWord;
    assert lead + (before + (word + (gap + [c]))) == lead + (before + (word + gap)) + [c];
  }

  lemma LongerGapIsOk(first: seq<Spaced>, last: Spaced, c: char)
    requires SourceOk(first + [last]) && Blanks([c])
    ensures SourceOk(first + [last.(gap := last.gap + [c])])
  {
    hide WordOk;
    var longer := last.(gap := last.gap + [c]);
    assert (first + [last])[|first|] == last;
    assert Blanks(longer.gap) by {
      assert c == [c][0];
    }
    forall i | 0 <= i < |first|
      ensures WordOk(first[i].word) && Blanks(first[i].gap) && first[i].gap != ""
    {
      assert (first + [last])[i] == first[i];
    }
  }

  /** A blank between words makes the gap longer. */
  lemma AfterGap(layout: Layout, c: char) returns (next: Layout)
    requires LayoutOk(layout) && layout.open.NoQuote? && Blanks([c]) && layout.begun == []
    ensures LayoutOk(next) && RenderLayout(next) == RenderLayout(layout) + [c]
  {
    hide SourceOk, PieceOk, RenderSource;
    var words := layout.words;
    if words == [] {
      assert c == [c][0];
      next := layout.(lead := layout.lead + [c]);
      NoWords();
    } else {
      var first, last := words[..|words| - 1], words[|words| - 1];
      assert words == first + [last];
      next := layout.(words := first + [last.(gap := last.gap + [c])]);
      LongerGap(layout.lead, first, last, c);
      LongerGapIsOk(first, last, c);
      EmptyWordAddsNothing(layout);
      EmptyWordAddsNothing(next);
    }
  }

  lemma NoWords()
    ensures RenderSource([]) == ""
  {
  }

  lemma EmptyWordAddsNothing(layout: Layout)
    requires layout.begun == [] && layout.open.NoQuote?
    ensures RenderLayout(layout) == layout.lead + RenderSource(layout.words)
  {
    assert RenderSource(layout.words) + ("" + "") == RenderSource(layout.words);
  }

  /** Any other character outside quotes. */
  lemma AfterOther(layout: Layout, c: char) returns (next: Layout)
    requires LayoutOk(layout) && layout.open.NoQuote? && !Blanks([c])
    ensures LayoutOk(next) && RenderLayout(next) == RenderLayout(layout) + [c]
  {
    hide RenderSource, SourceOk;
    assert c == [c][0];
    if c == '\'' {
      next := layout.(open := InSingleQuotes(""));
    } else if c == '"' {
      next := layout.(open := InDoubleQuotes([]));
    } else {
      next := layout.(begun := layout.begun + [Bare([c])]);
      RenderWordAppend(layout.begun, Bare([c]));
    }
    Grows(layout, next, c);
  }

  /** The open quote grows. */
  lemma OpenGrows(layout: Layout, next: Layout, c: char)
    requires next == layout.(open := next.open)
    requires RenderOpen(next.open) == RenderOpen(layout.open) + [c]
    ensures RenderLayout(next) == RenderLayout(layout) + [c]
  {
    var word, open := RenderWord(layout.begun), RenderOpen(layout.open);
    hide RenderWord, RenderOpen, RenderSource, RenderLayout;
    assert word + (open + [c]) == word + open + [c];
    Grows(layout, next, c);
  }

  /** The open quote is closed and becomes a piece of the word. */
  lemma OpenCloses(layout: Layout, piece: Piece, c: char) returns (next: Layout)
    requires LayoutOk(layout) && PieceOk(piece) && RenderPiece(piece) == RenderOpen(layout.open) + [c]
    ensures LayoutOk(next) && RenderLayout(next) == RenderLayout(layout) + [c]
  {
    next := layout.(begun := layout.begun + [piece], open := NoQuote);
    RenderWordAppend(layout.begun, piece);
    var word, open := RenderWord(layout.begun), RenderOpen(layout.open);
    assert RenderOpen(next.open) == "";
    hide RenderWord, RenderOpen, RenderSource, RenderPiece, RenderLayout, PieceOk, SourceOk;
    assert word + (open + [c]) + "" == word + open + [c];
    Grows(layout, next, c);
  }

  lemma AfterSingle(layout: Layout, c: char) returns (next: Layout)
    requires LayoutOk(layout) && layout.open.InSingleQuotes?
    ensures LayoutOk(next) && RenderLayout(next) == RenderLayout(layout) + [c]
  {
    hide RenderSource, RenderWord, SourceOk, RenderLayout;
    var text := layout.open.text;
    if c == '\'' {
      next := OpenCloses(layout, Single(text), c);
    } else {
      next := layout.(open := InSingleQuotes(text + [c]));
      OpenGrows(layout, next, c);
    }
  }

  lemma AfterDouble(layout: Layout, c: char) returns (next: Layout)
    requires LayoutOk(layout) && layout.open.InDoubleQuotes?
    ensures LayoutOk(next) && RenderLayout(next) == RenderLayout(layout) + [c]
  {
    hide RenderSource, RenderWord, SourceOk, RenderLayout;
    var items := layout.open.items;
    if c == '"' {
      next := OpenCloses(layout, Double(items), c);
    } else if c == '\\' {
      next := layout.(open := BehindBackslash(items));
      OpenGrows(layout, next, c);
    } else {
      next := layout.(open := InDoubleQuotes(items + [Verbatim(c)]));
      RenderItemsAppend(items, Verbatim(c));
      hide RenderItems;
      OpenGrows(layout, next, c);
    }
  }

  lemma AfterEscape(layout: Layout, c: char) returns (next: Layout)
    requires LayoutOk(layout) && layout.open.BehindBackslash?
    ensures LayoutOk(next) && RenderLayout(next) == RenderLayout(layout) + [c]
  {
    hide RenderSource, RenderWord, SourceOk, RenderLayout;
    var items := layout.open.items;
    next := layout.(open := InDoubleQuotes(items + [AfterBackslash(c)]));
    RenderItemsAppend(items, AfterBackslash(c));
    var inner := RenderItems(items);
    hide RenderItems;
    assert ['"'] + (inner + ['\\', c]) == ['"'] + inner + ['\\'] + [c];
    OpenGrows(layout, next, c);
  }

  /** Every text whatever is a source of this syntax, except that its last quote may still be open. */
  lemma {:induction false} EverySourceIsLaidOut(source: string) returns (layout: Layout)
    ensures LayoutOk(layout) && RenderLayout(layout) == source
    decreases |source|
  {
    if source == "" {
      layout := Layout("", [], [], NoQuote);
    } else {
      var c := source[|source| - 1];
      assert source == source[..|source| - 1] + [c];
      var before := EverySourceIsLaidOut(source[..|source| - 1]);
      hide LayoutOk, RenderLayout;
      match before.open {
        case InSingleQuotes(_) => layout := AfterSingle(before, c);
        case InDoubleQuotes(_) => layout := AfterDouble(before, c);
        case BehindBackslash(_) => layout := AfterEscape(before, c);
        case NoQuote =>
          if !Blanks([c]) {
            layout := AfterOther(before, c);
          } else if before.begun == [] {
            layout := AfterGap(before, c);
          } else {
            layout := AfterWord(before, c);
          }
      }
    }
  }

  lemma OpenLayout(layout: Layout)
    requires LayoutOk(layout) && !layout.open.NoQuote?
    ensures InertWords.Split(RenderLayout(layout)).None?
  {
    hide InertWords.Split, RenderSource, RenderWord, RenderItems, SourceOk, PieceOk, Blanks;
    match layout.open {
      case InSingleQuotes(text) =>
        OpenQuoteFails(layout.lead, layout.words, layout.begun, text, []);
      case InDoubleQuotes(items) =>
        OpenQuoteFails(layout.lead, layout.words, layout.begun, "", items);
      case BehindBackslash(items) =>
        OpenQuoteFails(layout.lead, layout.words, layout.begun, "", items);
    }
  }

  /**
   The splitter on every text: it fails exactly if a quote stays open, and otherwise returns what the words
   stand for.
   */
  lemma SplitIsTheSyntax(source: string) returns (layout: Layout)
    ensures LayoutOk(layout) && RenderLayout(layout) == source
    ensures InertWords.Split(source) ==
      if !layout.open.NoQuote? then None
      else Some(WordTexts(layout.words) + if layout.begun == [] then [] else [WordText(layout.begun)])
  {
    hide InertWords.Split, LayoutOk, RenderLayout;
    layout := EverySourceIsLaidOut(source);
    if layout.open.NoQuote? {
      ClosedLayout(layout);
    } else {
      OpenLayout(layout);
    }
  }

  lemma ClosedLayout(layout: Layout)
    requires LayoutOk(layout) && layout.open.NoQuote?
    ensures InertWords.Split(RenderLayout(layout))
         == Some(WordTexts(layout.words) + if layout.begun == [] then [] else [WordText(layout.begun)])
  {
    if layout.begun == [] {
      EmptyWordAddsNothing(layout);
      assert WordTexts(layout.words) + [] == WordTexts(layout.words);
      hide InertWords.Split, PieceOk;
      WordsComeBack(layout.lead, layout.words);
    } else {
      var last := Spaced(layout.begun, "");
      assert RenderOpen(layout.open) == last.gap == "";
      assert WordTexts([last]) == [WordText(layout.begun)];
      hide InertWords.Split, InertWords.Scan, RenderSource, RenderWord, WordTexts, WordText;
      ScanBlanks(layout.lead, RenderSource(layout.words) + (RenderWord(layout.begun) + ""));
      SplitWords(layout.words, last);
      SplitIsScan(RenderLayout(layout));
    }
  }

  lemma SplitIsScan(source: string)
    ensures InertWords.Split(source) == InertWords.Scan(InertWords.Between, "", source)
  {
  }
}
