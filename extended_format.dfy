/**
 * Formatting text into extended textual header pages and writing pages to a
 * file, as segpy/toolkit.py does it: the text is split at Python's
 * universal line boundaries, each line is cut into 78-character chunks, each
 * chunk is space-padded and CRLF-terminated to an 80-character card, and the
 * cards are batched into 40-card pages. The writer encodes and checks every
 * line and page before it writes anything.
 */
module ExtendedFormat {
  import opened SegyBase
  import opened TextualHeaders

  const HEADER_NEWLINE: string := "\r\n"

  /** The characters available to a card's text: CARD_LENGTH - len(HEADER_NEWLINE). */
  const LINE_WIDTH: nat := 78

  /**
   * A text encoding: whether it is one of the supported encodings, and
   * str.encode with it (None where the string cannot be encoded).
   */
  datatype Codec = Codec(supported: bool, encode: string -> Option<seq<byte>>)

  type TextPage = seq<string>

  function Spaces(n: nat): (r: string)
    ensures |r| == n && forall i :: 0 <= i < n ==> r[i] == ' '
  {
    seq(n, _ => ' ')
  }

  function Min(a: int, b: int): int { if a <= b then a else b }

  // ---------------------------------------------------------------------
  // str.splitlines
  // ---------------------------------------------------------------------

  /** The line boundaries of str.splitlines. */
  predicate IsLineBoundary(c: char) {
    c == '\n' || c == '\r' || c == '\U{000B}' || c == '\U{000C}' || c == '\U{001C}' ||
    c == '\U{001D}' || c == '\U{001E}' || c == '\U{0085}' || c == '\U{2028}' || c == '\U{2029}'
  }

  predicate NoBoundary(s: string) {
    forall c :: c in s ==> !IsLineBoundary(c)
  }

  /** The index of the first line boundary, or |t| if there is none. */
  function FirstBoundary(t: string): (i: nat)
    ensures i <= |t|
    ensures forall k :: 0 <= k < i ==> !IsLineBoundary(t[k])
    ensures i < |t| ==> IsLineBoundary(t[i])
    decreases |t|
  {
    if t == [] then 0
    else if IsLineBoundary(t[0]) then 0
    else 1 + FirstBoundary(t[1..])
  }

  /**
   * str.splitlines(): the lines between boundaries, "\r\n" counting as one
   * boundary, with no empty line after a final boundary.
   */
  function SplitLines(t: string): (r: seq<string>)
    ensures forall k :: 0 <= k < |r| ==> NoBoundary(r[k])
    ensures forall k :: 0 <= k < |r| ==> forall c :: c in r[k] ==> c in t
    decreases |t|
  {
    if t == [] then []
    else
      var i := FirstBoundary(t);
      if i == |t| then [t]
      else
        var skip := if t[i] == '\r' && i + 1 < |t| && t[i + 1] == '\n' then 2 else 1;
        var rest := SplitLines(t[i + skip..]);
        assert forall k :: 0 <= k < |rest| ==> forall c :: c in rest[k] ==> c in t;
        [t[..i]] + rest
  }

  /** Each line followed by "\n". */
  function JoinLines(lines: seq<string>): string
    decreases |lines|
  {
    if lines == [] then "" else lines[0] + "\n" + JoinLines(lines[1..])
  }

  /** Splitting newline-terminated lines that contain no boundary gives the
      lines back. */
  lemma {:induction false} SplitJoinLines(lines: seq<string>)
    requires forall k :: 0 <= k < |lines| ==> NoBoundary(lines[k])
    ensures SplitLines(JoinLines(lines)) == lines
    decreases |lines|
  {
    if lines != [] {
      var t := JoinLines(lines);
      var l := lines[0];
      assert t == l + "\n" + JoinLines(lines[1..]);
      assert t[|l|] == '\n';
      assert forall k :: 0 <= k < |l| ==> t[k] == l[k] && l[k] in l;
      assert FirstBoundary(t) == |l|;
      assert t[|l| + 1..] == JoinLines(lines[1..]);
      assert t[..|l|] == l;
      SplitJoinLines(lines[1..]);
    }
  }

  // ---------------------------------------------------------------------
  // pad_and_terminate_header_line and the 78-character chunks
  // ---------------------------------------------------------------------

  /** pad_and_terminate_header_line: line.ljust(width, ' ') + "\r\n". */
  function PadAndTerminateHeaderLine(line: string, width: nat): (r: string)
    ensures |r| == (if |line| >= width then |line| else width) + 2
    ensures r[..|line|] == line
    ensures forall i :: |line| <= i < |r| - 2 ==> r[i] == ' '
    ensures r[|r| - 2..] == HEADER_NEWLINE
  {
    (if |line| >= width then line else line + Spaces(width - |line|)) + HEADER_NEWLINE
  }

  /** original_line[i:i + 78] for i in range(0, len(original_line), 78). */
  function Chunks(line: string): (r: seq<string>)
    ensures |r| == (|line| + 77) / 78
    ensures forall k :: 0 <= k < |r| ==> 1 <= |r[k]| <= LINE_WIDTH
    ensures forall k :: 0 <= k < |r| ==> forall c :: c in r[k] ==> c in line
  {
    var n := (|line| + 77) / 78;
    seq(n, k requires 0 <= k < n => line[78 * k .. Min(78 * k + 78, |line|)])
  }

  /** A non-empty line of at most 78 characters is its own single chunk. */
  lemma ChunksShort(line: string)
    requires 0 < |line| <= LINE_WIDTH
    ensures Chunks(line) == [line]
  {
    assert (|line| + 77) / 78 == 1;
    assert Chunks(line)[0] == line[0 .. |line|] == line;
  }

  /** A line longer than 78 characters: its first chunk is its first 78
      characters, the rest are the chunks of the remainder. */
  lemma ChunksStep(line: string)
    requires |line| > LINE_WIDTH
    ensures Chunks(line) == [line[..78]] + Chunks(line[78..])
  {
    var cs := Chunks(line);
    var rest := Chunks(line[78..]);
    forall k | 0 <= k < |rest|
      ensures cs[k + 1] == rest[k]
    {
      SliceOfSlice(line, 78, |line|, 78 * k, Min(78 * k + 78, |line| - 78));
    }
    assert cs == [line[..78]] + rest;
  }

  /** The chunks of a line concatenate back to the line. */
  lemma {:induction false} ChunksJoin(line: string)
    ensures Flatten(Chunks(line)) == line
    decreases |line|
  {
    if |line| > LINE_WIDTH {
      ChunksStep(line);
      ChunksJoin(line[78..]);
      assert Chunks(line)[1..] == Chunks(line[78..]);
      assert line == line[..78] + line[78..];
    } else if line != [] {
      ChunksShort(line);
      assert Flatten(Chunks(line)) == line + Flatten([]);
    } else {
      assert Chunks(line) == [];
    }
  }

  /** The cards one input line becomes: each chunk padded to 78 and
      CRLF-terminated. */
  function PaddedChunks(line: string): (r: seq<string>)
    ensures |r| == |Chunks(line)|
    ensures forall k :: 0 <= k < |r| ==>
      |r[k]| == CARD_LENGTH && r[k][LINE_WIDTH..] == HEADER_NEWLINE
  {
    var cs := Chunks(line);
    seq(|cs|, k requires 0 <= k < |cs| => PadAndTerminateHeaderLine(cs[k], LINE_WIDTH))
  }

  /** The text of a card: its first 78 characters. */
  function CardText(card: string): string
    requires |card| >= LINE_WIDTH
  {
    card[..LINE_WIDTH]
  }

  /**
   * The texts of the cards of one input line concatenate to the line followed
   * by spaces, fewer than 78 of them: the chunks are space-padded in place.
   */
  lemma {:induction false} PaddedChunksJoin(line: string)
    ensures var pc := PaddedChunks(line);
      Flatten(seq(|pc|, k requires 0 <= k < |pc| => CardText(pc[k]))) ==
        line + Spaces(78 * |pc| - |line|)
    ensures 78 * |PaddedChunks(line)| - |line| < 78
    decreases |line|
  {
    var pc := PaddedChunks(line);
    var texts := seq(|pc|, k requires 0 <= k < |pc| => CardText(pc[k]));
    if |line| > LINE_WIDTH {
      ChunksStep(line);
      PaddedChunksJoin(line[78..]);
      var pc' := PaddedChunks(line[78..]);
      var texts' := seq(|pc'|, k requires 0 <= k < |pc'| => CardText(pc'[k]));
      assert texts[0] == line[..78];
      assert texts[1..] == texts';
      assert texts == [texts[0]] + texts';
      assert Flatten(texts) == line[..78] + Flatten(texts');
      assert line == line[..78] + line[78..];
    } else if line != [] {
      ChunksShort(line);
      var card := PadAndTerminateHeaderLine(line, LINE_WIDTH);
      assert pc == [card];
      assert card == line + Spaces(78 - |line|) + HEADER_NEWLINE;
      assert CardText(card) == line + Spaces(78 - |line|);
      assert texts == [line + Spaces(78 - |line|)];
      assert Flatten(texts) == texts[0] + Flatten([]);
    } else {
      assert texts == [];
    }
  }

  // ---------------------------------------------------------------------
  // batched, and the formatted pages
  // ---------------------------------------------------------------------

  /**
   * batched(items, n, padding) (segpy.util.batched): consecutive groups of
   * n items, the last one filled up with the padding value. The helper is
   * not part of this model; this is the behaviour assumed of it.
   */
  function Batched<T>(items: seq<T>, n: nat, padding: T): (r: seq<seq<T>>)
    requires n > 0
    ensures forall k :: 0 <= k < |r| ==> |r[k]| == n
    ensures |r| == 0 <==> |items| == 0
    decreases |items|
  {
    if items == [] then []
    else if |items| <= n then [items + seq(n - |items|, _ => padding)]
    else [items[..n]] + Batched(items[n..], n, padding)
  }

  /** The batches concatenate to the items followed by fewer than n copies
      of the padding value. */
  lemma {:induction false} BatchedJoin<T>(items: seq<T>, n: nat, padding: T)
    requires n > 0
    ensures var r := Batched(items, n, padding);
      |Flatten(r)| >= |items| && Flatten(r)[..|items|] == items &&
      (forall i :: |items| <= i < |Flatten(r)| ==> Flatten(r)[i] == padding) &&
      |Flatten(r)| - |items| < n
    decreases |items|
  {
    var r := Batched(items, n, padding);
    if items == [] {
    } else if |items| <= n {
      assert Flatten(r) == r[0] + Flatten([]);
    } else {
      BatchedJoin(items[n..], n, padding);
      assert r[1..] == Batched(items[n..], n, padding);
      assert Flatten(r) == items[..n] + Flatten(r[1..]);
      assert items == items[..n] + items[n..];
    }
  }

  /** The cards of a sequence of input lines, in order. */
  function FormattedLines(original: seq<string>): (r: seq<string>)
    ensures forall k :: 0 <= k < |r| ==> |r[k]| == CARD_LENGTH && r[k][LINE_WIDTH..] == HEADER_NEWLINE
    decreases |original|
  {
    if original == [] then []
    else FormattedLines(original[..|original| - 1]) + PaddedChunks(original[|original| - 1])
  }

  /**
   * An empty input line yields no card (its chunk range is empty), so a
   * blank line of the text leaves no trace in the formatted cards.
   */
  lemma {:induction false} BlankLineDropped(original: seq<string>, k: nat)
    requires k < |original| && original[k] == ""
    ensures FormattedLines(original) == FormattedLines(original[..k] + original[k + 1..])
    decreases |original|
  {
    var last := |original| - 1;
    var front := original[..last];
    if k == last {
      assert |Chunks("")| == 0;
      assert original[..k] + original[k + 1..] == front;
    } else {
      BlankLineDropped(front, k);
      var dropped := original[..k] + original[k + 1..];
      assert dropped[..|dropped| - 1] == front[..k] + front[k + 1..];
      assert dropped[|dropped| - 1] == original[last];
    }
  }

  /** "a\n\nb" splits into "a", a blank line and "b". */
  lemma SplitWithBlankLine()
    ensures SplitLines("a\n\nb") == ["a", "", "b"]
  {
    var t := "a\n\nb";
    assert FirstBoundary("b") == 1 && SplitLines("b") == ["b"];
    assert FirstBoundary("\nb") == 0 && "\nb"[1..] == "b" && "\nb"[..0] == "";
    assert SplitLines("\nb") == [""] + SplitLines("b");
    assert FirstBoundary(t) == 1 && t[1] == '\n' && t[..1] == "a" && t[2..] == "\nb";
    assert SplitLines(t) == ["a"] + SplitLines("\nb");
  }

  /** "a\nb" splits into "a" and "b". */
  lemma SplitWithoutBlankLine()
    ensures SplitLines("a\nb") == ["a", "b"]
  {
    var t := "a\nb";
    assert FirstBoundary("b") == 1 && SplitLines("b") == ["b"];
    assert FirstBoundary(t) == 1 && t[1] == '\n' && t[..1] == "a" && t[2..] == "b";
    assert SplitLines(t) == ["a"] + SplitLines("b");
  }

  /** "a\n\nb" formats exactly like "a\nb": the blank line is not kept. */
  lemma BlankLineExample()
    ensures FormatPages("a\n\nb") == FormatPages("a\nb")
  {
    SplitWithBlankLine();
    SplitWithoutBlankLine();
    BlankLineDropped(["a", "", "b"], 1);
    assert ["a", "", "b"][..1] + ["a", "", "b"][2..] == ["a", "b"];
  }

  /** The padding card: an empty line padded and terminated. */
  function BlankCard(): string {
    PadAndTerminateHeaderLine("", LINE_WIDTH)
  }

  /** The pages of the text: its cards batched by forty, padded with blank cards. */
  function FormatPages(text: string): seq<TextPage> {
    Batched(FormattedLines(SplitLines(text)), CARDS_PER_HEADER, BlankCard())
  }

  lemma StanzaIsOneLine()
    ensures SplitLines(END_TEXT_STANZA) == [END_TEXT_STANZA]
  {
    var s := END_TEXT_STANZA;
    assert forall k :: 0 <= k < |s| ==> !IsLineBoundary(s[k]);
    assert FirstBoundary(s) == |s|;
  }

  /** A line of at most 78 characters makes one card, padded. */
  lemma ShortLineIsOneCard(line: string)
    requires 0 < |line| <= LINE_WIDTH
    ensures FormattedLines([line]) == [PadAndTerminateHeaderLine(line, LINE_WIDTH)]
  {
    ChunksShort(line);
    assert [line][..0] == [];
    assert FormattedLines([line]) == FormattedLines([]) + PaddedChunks(line);
  }

  /** A text that is one line of at most 78 characters formats to a single
      page whose first card is that line, padded. */
  lemma OneShortLineFormatsToOnePage(text: string)
    requires 0 < |text| <= LINE_WIDTH && SplitLines(text) == [text]
    ensures |FormatPages(text)| == 1
    ensures FormatPages(text)[0][0] == PadAndTerminateHeaderLine(text, LINE_WIDTH)
  {
    ShortLineIsOneCard(text);
    var card := PadAndTerminateHeaderLine(text, LINE_WIDTH);
    assert Batched([card], CARDS_PER_HEADER, BlankCard()) ==
      [[card] + seq(CARDS_PER_HEADER - 1, _ => BlankCard())];
  }

  /** The stanza formats to a single page whose first card holds it. */
  lemma StanzaFormatsToOnePage()
    ensures |FormatPages(END_TEXT_STANZA)| == 1
    ensures FormatPages(END_TEXT_STANZA)[0][0] == PadAndTerminateHeaderLine(END_TEXT_STANZA, LINE_WIDTH)
  {
    StanzaIsOneLine();
    OneShortLineFormatsToOnePage(END_TEXT_STANZA);
  }

  /** The page appended for include_text_stop. */
  function StopPage(): TextPage {
    StanzaFormatsToOnePage();
    FormatPages(END_TEXT_STANZA)[0]
  }

  /** format_extended_textual_header, as a function of its arguments. */
  function FormatSpec(text: string, codec: Codec, includeTextStop: bool): Result<seq<TextPage>> {
    if !codec.supported then Err(UnsupportedEncodingError)
    else Ok(FormatPages(text) + (if includeTextStop then [StopPage()] else []))
  }

  /**
   * Every formatted page has forty cards; every card is 80 characters ending
   * in CRLF; the cards are those of the input lines, followed by fewer than
   * forty blank cards.
   */
  lemma FormatPagesShape(text: string)
    ensures var pages := FormatPages(text);
      forall p :: 0 <= p < |pages| ==> (|pages[p]| == CARDS_PER_HEADER &&
        forall l :: 0 <= l < CARDS_PER_HEADER ==>
          |pages[p][l]| == CARD_LENGTH && pages[p][l][LINE_WIDTH..] == HEADER_NEWLINE)
    ensures var lines := FormattedLines(SplitLines(text));
      var cards := Flatten(FormatPages(text));
      |cards| >= |lines| && cards[..|lines|] == lines &&
      (forall i :: |lines| <= i < |cards| ==> cards[i] == BlankCard()) &&
      |cards| - |lines| < CARDS_PER_HEADER
  {
    var lines := FormattedLines(SplitLines(text));
    BatchedJoin(lines, CARDS_PER_HEADER, BlankCard());
    var pages := FormatPages(text);
    forall p, l | 0 <= p < |pages| && 0 <= l < CARDS_PER_HEADER
      ensures |pages[p][l]| == CARD_LENGTH && pages[p][l][LINE_WIDTH..] == HEADER_NEWLINE
    {
      FlattenUniformLength(pages, CARDS_PER_HEADER);
      FlattenUniformPart(pages, CARDS_PER_HEADER, p);
      var i := CARDS_PER_HEADER * p + l;
      assert pages[p][l] == Flatten(pages)[i];
      if i >= |lines| {
        assert Flatten(pages)[i] == BlankCard();
      } else {
        assert Flatten(pages)[..|lines|][i] == lines[i];
      }
    }
  }

  /** A character of a formatted card is a character of the text, a space
      or part of the CRLF terminator. */
  lemma FormattedCharsFromText(text: string, c: char)
    requires exists p, l :: (0 <= p < |FormatPages(text)| && 0 <= l < |FormatPages(text)[p]| &&
      c in FormatPages(text)[p][l])
    ensures c in text || c == ' ' || c == '\r' || c == '\n'
  {
    var pages := FormatPages(text);
    var p, l :| 0 <= p < |pages| && 0 <= l < |pages[p]| && c in pages[p][l];
    var lines := FormattedLines(SplitLines(text));
    FormatPagesShape(text);
    FlattenUniformLength(pages, CARDS_PER_HEADER);
    FlattenUniformPart(pages, CARDS_PER_HEADER, p);
    var i := CARDS_PER_HEADER * p + l;
    assert pages[p][l] == Flatten(pages)[i];
    if i < |lines| {
      assert Flatten(pages)[..|lines|][i] == lines[i];
      FormattedLinesChars(SplitLines(text), i, c);
    } else {
      assert pages[p][l] == BlankCard();
      BlankCardChars(c);
    }
  }

  lemma BlankCardChars(c: char)
    requires c in BlankCard()
    ensures c == ' ' || c == '\r' || c == '\n'
  {
    var b := BlankCard();
    var i :| 0 <= i < |b| && b[i] == c;
    if i >= LINE_WIDTH {
      assert b[i] == b[LINE_WIDTH..][i - LINE_WIDTH];
    }
  }

  /** A character of card i of some input lines is a character of one of
      those lines, a space, or part of the terminator. */
  lemma {:induction false} FormattedLinesChars(original: seq<string>, i: nat, c: char)
    requires i < |FormattedLines(original)| && c in FormattedLines(original)[i]
    ensures (exists k :: 0 <= k < |original| && c in original[k]) || c == ' ' || c == '\r' || c == '\n'
    decreases |original|
  {
    var init := original[..|original| - 1];
    var last := original[|original| - 1];
    var head := FormattedLines(init);
    if i < |head| {
      assert FormattedLines(original)[i] == head[i];
      FormattedLinesChars(init, i, c);
      if exists k :: 0 <= k < |init| && c in init[k] {
        var k :| 0 <= k < |init| && c in init[k];
        assert init[k] == original[k];
      }
    } else {
      var j := i - |head|;
      var card := PaddedChunks(last)[j];
      assert FormattedLines(original)[i] == card;
      var chunk := Chunks(last)[j];
      var m :| 0 <= m < |card| && card[m] == c;
      if m < |chunk| {
        assert card[..|chunk|][m] == chunk[m];
        assert c in chunk;
        assert c in original[|original| - 1];
      } else if m >= LINE_WIDTH {
        assert card[m] == card[LINE_WIDTH..][m - LINE_WIDTH];
      }
    }
  }

  /**
   * format_extended_textual_header: unsupported encodings raise; otherwise
   * each line of the text becomes its padded 78-character chunks, the cards
   * are batched by forty, and include_text_stop appends the stanza's page.
   */
  method FormatExtendedTextualHeader(text: string, codec: Codec, includeTextStop: bool)
    returns (r: Result<seq<TextPage>>)
    ensures r == FormatSpec(text, codec, includeTextStop)
    decreases includeTextStop
  {
    if !codec.supported {
      return Err(UnsupportedEncodingError);
    }
    var width := CARD_LENGTH - |HEADER_NEWLINE|;
    var lines := FormatLines(SplitLines(text), width);
    var pages := Batched(lines, CARDS_PER_HEADER, PadAndTerminateHeaderLine("", width));
    if includeTextStop {
      var stop := FormatExtendedTextualHeader(END_TEXT_STANZA, codec, false);
      StanzaFormatsToOnePage();
      assert stop.value[0] == StopPage();
      pages := pages + [stop.value[0]];
    }
    assert pages == FormatSpec(text, codec, includeTextStop).value;
    return Ok(pages);
  }

  /** The loop over the input lines of format_extended_textual_header. */
  method FormatLines(originalLines: seq<string>, width: nat) returns (lines: seq<string>)
    requires width == LINE_WIDTH
    ensures lines == FormattedLines(originalLines)
  {
    lines := [];
    for i := 0 to |originalLines|
      invariant lines == FormattedLines(originalLines[..i])
    {
      var cards := FormatLine(originalLines[i], width);
      lines := lines + cards;
      assert originalLines[..i + 1][..i] == originalLines[..i];
    }
    assert originalLines[..|originalLines|] == originalLines;
  }

  /** The inner loop: the line cut into 78-character chunks, each padded
      and terminated. */
  method FormatLine(line: string, width: nat) returns (cards: seq<string>)
    requires width == LINE_WIDTH
    ensures cards == PaddedChunks(line)
  {
    cards := [];
    var start := 0;
    var k := 0;
    while start < |line|
      invariant start == 78 * k && k <= |Chunks(line)|
      invariant start < |line| <==> k < |Chunks(line)|
      invariant cards == PaddedChunks(line)[..k]
    {
      cards := cards + [PadAndTerminateHeaderLine(line[start .. Min(start + width, |line|)], width)];
      start := start + width;
      k := k + 1;
    }
    assert PaddedChunks(line)[..k] == PaddedChunks(line);
  }


  // ---------------------------------------------------------------------
  // write_extended_textual_headers
  // ---------------------------------------------------------------------

  /** line.encode(encoding), which must give exactly 80 bytes. */
  function EncodeLine(codec: Codec, line: string): Result<Line> {
    match codec.encode(line)
    case None => Err(UnicodeEncodeError)
    case Some(bytes) => if |bytes| != CARD_LENGTH then Err(ValueError) else Ok(bytes)
  }

  function LineEncoder(codec: Codec): string -> Result<Line> {
    line => EncodeLine(codec, line)
  }

  /** A page's lines encoded in order; then it must have forty lines. The
      message for a wrong line count has three placeholders and two
      arguments, so str.format raises IndexError. */
  function EncodePage(codec: Codec, page: TextPage): Result<Page> {
    var lines :- MapResult(LineEncoder(codec), page);
    if |lines| != CARDS_PER_HEADER then Err(IndexError) else Ok(lines)
  }

  function PageEncoder(codec: Codec): TextPage -> Result<Page> {
    page => EncodePage(codec, page)
  }

  /** All pages encoded and checked, in order, before anything is written. */
  function EncodePages(codec: Codec, pages: seq<TextPage>): Result<seq<Page>> {
    MapResult(PageEncoder(codec), pages)
  }

  /** A page of forty 80-byte lines. */
  predicate WellFormedPage(page: Page) {
    |page| == CARDS_PER_HEADER && forall l :: 0 <= l < |page| ==> |page[l]| == CARD_LENGTH
  }

  /**
   * The pages are accepted exactly when every page has forty lines and every
   * line encodes to 80 bytes; the encoded pages are then the lines' encodings.
   */
  lemma EncodePagesOk(codec: Codec, pages: seq<TextPage>)
    ensures EncodePages(codec, pages).Ok? <==>
      forall p :: 0 <= p < |pages| ==> (|pages[p]| == CARDS_PER_HEADER &&
        forall l :: 0 <= l < |pages[p]| ==>
          codec.encode(pages[p][l]).Some? && |codec.encode(pages[p][l]).value| == CARD_LENGTH)
    ensures EncodePages(codec, pages).Ok? ==> (|EncodePages(codec, pages).value| == |pages| &&
      forall p :: 0 <= p < |pages| ==> (WellFormedPage(EncodePages(codec, pages).value[p]) &&
        forall l :: 0 <= l < CARDS_PER_HEADER ==>
          EncodePages(codec, pages).value[p][l] == codec.encode(pages[p][l]).value))
  {
    MapResultOk(PageEncoder(codec), pages);
    forall p | 0 <= p < |pages|
      ensures EncodePage(codec, pages[p]).Ok? <==> (|pages[p]| == CARDS_PER_HEADER &&
        forall l :: 0 <= l < |pages[p]| ==>
          codec.encode(pages[p][l]).Some? && |codec.encode(pages[p][l]).value| == CARD_LENGTH)
      ensures EncodePage(codec, pages[p]).Ok? ==> (WellFormedPage(EncodePage(codec, pages[p]).value) &&
        forall l :: 0 <= l < CARDS_PER_HEADER ==>
          EncodePage(codec, pages[p]).value[l] == codec.encode(pages[p][l]).value)
    {
      MapResultOk(LineEncoder(codec), pages[p]);
    }
  }

  /** An encoding failure on line j of page i, after all earlier lines and
      pages passed, is the writer's error. */
  lemma LineErrIsResult(codec: Codec, pages: seq<TextPage>, i: nat, j: nat)
    requires i < |pages| && j < |pages[i]|
    requires MapResult(PageEncoder(codec), pages[..i]).Ok?
    requires MapResult(LineEncoder(codec), pages[i][..j]).Ok?
    requires EncodeLine(codec, pages[i][j]).Err?
    ensures EncodePages(codec, pages) == Err(EncodeLine(codec, pages[i][j]).error)
  {
    var e := EncodeLine(codec, pages[i][j]).error;
    assert pages[i][..j + 1][..j] == pages[i][..j];
    MapResultPrefixErr(LineEncoder(codec), pages[i], j + 1);
    PageErrIsResult(codec, pages, i);
  }

  /** A failure of page i, after all earlier pages passed, is the writer's
      error. */
  lemma PageErrIsResult(codec: Codec, pages: seq<TextPage>, i: nat)
    requires i < |pages|
    requires MapResult(PageEncoder(codec), pages[..i]).Ok?
    requires EncodePage(codec, pages[i]).Err?
    ensures EncodePages(codec, pages) == Err(EncodePage(codec, pages[i]).error)
  {
    assert pages[..i + 1][..i] == pages[..i];
    MapResultPrefixErr(PageEncoder(codec), pages, i + 1);
  }

  /** The bytes written for the encoded pages: each page's lines joined, in order. */
  function PagesBytes(encoded: seq<Page>): seq<byte>
    decreases |encoded|
  {
    if encoded == [] then [] else PagesBytes(encoded[..|encoded| - 1]) + Flatten(encoded[|encoded| - 1])
  }

  /** Writing page i right after pages 0 .. i-1 extends the written image by that page. */
  lemma WritePageStep(data0: seq<byte>, pos0: nat, encoded: seq<Page>, i: nat, data: seq<byte>)
    requires i < |encoded| && data == Overwrite(data0, pos0, PagesBytes(encoded[..i]))
    ensures Overwrite(data, pos0 + |PagesBytes(encoded[..i])|, Flatten(encoded[i])) ==
            Overwrite(data0, pos0, PagesBytes(encoded[..i + 1]))
    ensures |PagesBytes(encoded[..i + 1])| == |PagesBytes(encoded[..i])| + |Flatten(encoded[i])|
  {
    PagesBytesStep(encoded, i);
    OverwriteConsecutive(data0, pos0, PagesBytes(encoded[..i]), Flatten(encoded[i]));
  }

  lemma PagesBytesStep(encoded: seq<Page>, i: nat)
    requires i < |encoded|
    ensures PagesBytes(encoded[..i + 1]) == PagesBytes(encoded[..i]) + Flatten(encoded[i])
  {
    assert encoded[..i + 1][..i] == encoded[..i];
  }

  lemma WellFormedPageBytes(page: Page)
    requires WellFormedPage(page)
    ensures |Flatten(page)| == TEXTUAL_HEADER_NUM_BYTES
  {
    FlattenUniformLength(page, CARD_LENGTH);
  }

  /** Well-formed pages take 3200 bytes each, page k at [3200 * k, 3200 * k + 3200). */
  lemma {:induction false} PagesBytesLayout(encoded: seq<Page>)
    requires forall p :: 0 <= p < |encoded| ==> WellFormedPage(encoded[p])
    ensures |PagesBytes(encoded)| == 3200 * |encoded|
    ensures forall k :: 0 <= k < |encoded| ==>
      PagesBytes(encoded)[3200 * k .. 3200 * k + 3200] == Flatten(encoded[k])
    decreases |encoded|
  {
    if encoded != [] {
      var n := |encoded| - 1;
      var init := encoded[..n];
      PagesBytesLayout(init);
      WellFormedPageBytes(encoded[n]);
      var b := PagesBytes(encoded);
      assert b == PagesBytes(init) + Flatten(encoded[n]);
      forall k | 0 <= k < |encoded|
        ensures b[3200 * k .. 3200 * k + 3200] == Flatten(encoded[k])
      {
        if k < n {
          assert b[3200 * k .. 3200 * k + 3200] == PagesBytes(init)[3200 * k .. 3200 * k + 3200];
          assert init[k] == encoded[k];
        } else {
          assert b[3200 * k ..] == Flatten(encoded[n]);
        }
      }
    }
  }

  /** Write the encoded pages one after another at the current position. */
  method WriteEncodedPages(fh: OutputFile, encoded: seq<Page>)
    modifies fh
    ensures fh.data == Overwrite(old(fh.data), old(fh.pos), PagesBytes(encoded))
    ensures fh.pos == old(fh.pos) + |PagesBytes(encoded)|
  {
    ghost var data0, pos0 := fh.data, fh.pos;
    assert encoded[..0] == [];
    for i := 0 to |encoded|
      invariant fh.data == Overwrite(data0, pos0, PagesBytes(encoded[..i]))
      invariant fh.pos == pos0 + |PagesBytes(encoded[..i])|
    {
      var concatenated := Flatten(encoded[i]);
      WritePageStep(data0, pos0, encoded, i, fh.data);
      fh.Write(concatenated);
    }
    assert encoded[..|encoded|] == encoded;
  }

  /**
   * write_extended_textual_headers: an unsupported encoding raises; every
   * line of every page is encoded and checked to be 80 bytes, and every page
   * to have forty lines, before anything is written; then the pages are
   * written at the current position, 3200 bytes each. On any error the file
   * is untouched.
   */
  method WriteExtendedTextualHeaders(fh: OutputFile, pages: seq<TextPage>, codec: Codec) returns (r: Result<()>)
    modifies fh
    ensures !codec.supported ==> r == Err(UnsupportedEncodingError)
    ensures codec.supported ==> (r.Ok? <==> EncodePages(codec, pages).Ok?)
    ensures codec.supported && r.Err? ==> r.error == EncodePages(codec, pages).error
    ensures r.Err? ==> fh.data == old(fh.data) && fh.pos == old(fh.pos)
    ensures r.Ok? ==> fh.data == Overwrite(old(fh.data), old(fh.pos), PagesBytes(EncodePages(codec, pages).value))
    ensures r.Ok? ==> fh.pos == old(fh.pos) + TEXTUAL_HEADER_NUM_BYTES * |pages|
  {
    if !codec.supported {
      return Err(UnsupportedEncodingError);
    }
    var encodedPages: seq<Page> := [];
    for i := 0 to |pages|
      invariant MapResult(PageEncoder(codec), pages[..i]) == Ok(encodedPages)
    {
      var page := pages[i];
      var encodedPage: seq<Line> := [];
      for j := 0 to |page|
        invariant MapResult(LineEncoder(codec), page[..j]) == Ok(encodedPage)
      {
        var encoded := codec.encode(page[j]);
        if encoded.None? {
          LineErrIsResult(codec, pages, i, j);
          return Err(UnicodeEncodeError);
        }
        if |encoded.value| != CARD_LENGTH {
          LineErrIsResult(codec, pages, i, j);
          return Err(ValueError);
        }
        assert page[..j + 1][..j] == page[..j];
        encodedPage := encodedPage + [encoded.value];
      }
      assert page[..|page|] == page;
      if |encodedPage| != CARDS_PER_HEADER {
        PageErrIsResult(codec, pages, i);
        return Err(IndexError);
      }
      assert pages[..i + 1][..i] == pages[..i];
      encodedPages := encodedPages + [encodedPage];
    }
    assert pages[..|pages|] == pages;
    EncodePagesOk(codec, pages);
    PagesBytesLayout(encodedPages);
    WriteEncodedPages(fh, encodedPages);
    return Ok(());
  }

  // ---------------------------------------------------------------------
  // Written pages read back
  // ---------------------------------------------------------------------

  /** Splitting the bytes of a well-formed page into cards gives the page back. */
  lemma CardsOfPage(page: Page)
    requires WellFormedPage(page)
    ensures |Flatten(page)| == TEXTUAL_HEADER_NUM_BYTES
    ensures Cards(Flatten(page)) == page
  {
    WellFormedPageBytes(page);
    var raw := Flatten(page);
    forall i | 0 <= i < CARDS_PER_HEADER
      ensures Cards(raw)[i] == page[i]
    {
      FlattenUniformPart(page, CARD_LENGTH, i);
    }
  }

  /** The k-th page from `pos` is `page` when the file holds its bytes there. */
  lemma NthPageHolds(file: seq<byte>, pos: nat, k: nat, lo: nat, page: Page)
    requires WellFormedPage(page)
    requires lo == 3200 * k && pos + lo + 3200 <= |file|
    requires file[pos + lo .. pos + lo + 3200] == Flatten(page)
    ensures NthPage(file, pos, k) == page
  {
    NthPageBytes(file, pos, k, lo);
    CardsOfPage(page);
  }

  /** Pages written at offset `at` are the complete pages read from there. */
  lemma WrittenPagesReadBack(out: seq<byte>, at: nat, encoded: seq<Page>)
    requires forall p :: 0 <= p < |encoded| ==> WellFormedPage(encoded[p])
    requires HoldsAt(out, at, PagesBytes(encoded))
    ensures PagesAvailable(out, at) >= |encoded|
    ensures forall k :: 0 <= k < |encoded| ==> NthPage(out, at, k) == encoded[k]
  {
    var n := |encoded|;
    var bytes := PagesBytes(encoded);
    PagesBytesLayout(encoded);
    if n > 0 {
      PagesAvailableIff(out, at, n - 1);
      forall k | 0 <= k < n
        ensures NthPage(out, at, k) == encoded[k]
      {
        var lo := 3200 * k;
        HoldsAtPart(out, at, bytes, lo, lo + 3200);
        NthPageHolds(out, at, k, lo, encoded[k]);
      }
    }
  }

  /** Counted mode reads back n written pages none of which has the stanza. */
  lemma WriteThenReadCounted(out: seq<byte>, at: nat, encoded: seq<Page>)
    requires forall p :: 0 <= p < |encoded| ==> WellFormedPage(encoded[p]) && !HasEndTextStanza(encoded[p])
    requires HoldsAt(out, at, PagesBytes(encoded))
    ensures Counted(out, at, |encoded|) == Ok((encoded, at + 3200 * |encoded|))
  {
    WrittenPagesReadBack(out, at, encoded);
    CountedNoStanza(out, at, |encoded|);
    assert Counted(out, at, |encoded|).value.0 == encoded;
  }

  /** Non-empty well-formed pages of which only the last has the stanza. */
  predicate StanzaOnLastPage(encoded: seq<Page>) {
    |encoded| > 0 &&
    forall p :: 0 <= p < |encoded| ==>
      WellFormedPage(encoded[p]) && (HasEndTextStanza(encoded[p]) <==> p == |encoded| - 1)
  }

  /** Until-end mode reads back, from a file whose next pages are `encoded`,
      exactly those pages when only the last of them has the stanza. */
  lemma ReadBackUntilEnd(file: seq<byte>, at: nat, encoded: seq<Page>)
    requires StanzaOnLastPage(encoded)
    requires PagesAvailable(file, at) >= |encoded|
    requires forall k :: 0 <= k < |encoded| ==> NthPage(file, at, k) == encoded[k]
    ensures UntilEnd(file, at) == Ok((encoded, at + 3200 * |encoded|))
  {
    var n := |encoded|;
    UntilEndErr(file, at);
    assert HasEndTextStanza(NthPage(file, at, n - 1));
    UntilEndPages(file, at);
    UntilEndStanza(file, at);
    var r := UntilEnd(file, at);
    var pages := r.value.0;
    var m := |pages|;
    assert m <= n;
    assert pages[m - 1] == encoded[m - 1];
    assert m == n;
    assert pages == encoded;
  }

  /** Until-end mode reads back written pages of which only the last has the
      stanza. */
  lemma WriteThenReadUntilEnd(out: seq<byte>, at: nat, encoded: seq<Page>)
    requires StanzaOnLastPage(encoded)
    requires HoldsAt(out, at, PagesBytes(encoded))
    ensures UntilEnd(out, at) == Ok((encoded, at + 3200 * |encoded|))
  {
    WrittenPagesReadBack(out, at, encoded);
    ReadBackUntilEnd(out, at, encoded);
  }

  predicate IsAsciiText(s: string) {
    forall i :: 0 <= i < |s| ==> s[i] as int < 128
  }

  /** An encoding that writes every ASCII string as its one-byte codes. */
  ghost predicate EncodesAscii(codec: Codec) {
    forall s :: IsAsciiText(s) ==> codec.encode(s) == Some(Ascii(s))
  }

  /** Every card formatted from ASCII text is ASCII. */
  lemma FormattedCardsAscii(text: string)
    requires IsAsciiText(text)
    ensures forall p, l :: 0 <= p < |FormatPages(text)| && 0 <= l < |FormatPages(text)[p]| ==>
      IsAsciiText(FormatPages(text)[p][l])
  {
    forall p, l, i | 0 <= p < |FormatPages(text)| && 0 <= l < |FormatPages(text)[p]| &&
      0 <= i < |FormatPages(text)[p][l]|
      ensures FormatPages(text)[p][l][i] as int < 128
    {
      var c := FormatPages(text)[p][l][i];
      assert c in FormatPages(text)[p][l];
      FormattedCharsFromText(text, c);
    }
  }

  /** ASCII strings contain one another exactly when their byte codes do. */
  lemma ContainsAscii(s: string, t: string)
    requires IsAsciiText(s) && IsAsciiText(t)
    ensures Contains(Ascii(s), Ascii(t)) <==> Contains(s, t)
  {
    ContainsIff(Ascii(s), Ascii(t));
    ContainsIff(s, t);
    forall i: nat | i + |t| <= |s|
      ensures OccursAt(Ascii(s), Ascii(t), i) <==> OccursAt(s, t, i)
    {
      if OccursAt(Ascii(s), Ascii(t), i) {
        forall k | 0 <= k < |t|
          ensures s[i + k] == t[k]
        {
          assert Ascii(s)[i .. i + |t|][k] == Ascii(t)[k];
        }
        assert s[i .. i + |t|] == t;
      }
    }
  }

  lemma StanzaIsAscii()
    ensures IsAsciiText(END_TEXT_STANZA)
  {
  }

  /** Padding and terminating an ASCII line gives an ASCII card. */
  lemma PaddedAscii(line: string, width: nat)
    requires IsAsciiText(line)
    ensures IsAsciiText(PadAndTerminateHeaderLine(line, width))
  {
    var card := PadAndTerminateHeaderLine(line, width);
    forall i | 0 <= i < |card|
      ensures card[i] as int < 128
    {
      if i < |line| {
        assert card[..|line|][i] == line[i];
      } else if i >= |card| - 2 {
        assert card[i] == card[|card| - 2..][i - (|card| - 2)];
      }
    }
  }

  /** The stanza is ASCII, and the stop page's first card is ASCII and
      begins with it. */
  lemma StopCardHasStanza()
    ensures IsAsciiText(END_TEXT_STANZA) && StanzaBytes() == Ascii(END_TEXT_STANZA)
    ensures |StopPage()| == CARDS_PER_HEADER
    ensures IsAsciiText(StopPage()[0])
    ensures Contains(StopPage()[0], END_TEXT_STANZA)
  {
    var s := END_TEXT_STANZA;
    StanzaFormatsToOnePage();
    FormatPagesShape(END_TEXT_STANZA);
    var card := StopPage()[0];
    assert card == PadAndTerminateHeaderLine(s, LINE_WIDTH);
    StanzaIsAscii();
    PaddedAscii(s, LINE_WIDTH);
    assert OccursAt(card, s, 0);
    ContainsIff(card, s);
  }

  /** Pages of forty 80-character ASCII cards. */
  predicate AsciiCardPages(pages: seq<TextPage>) {
    forall p :: 0 <= p < |pages| ==> (|pages[p]| == CARDS_PER_HEADER &&
      forall l :: 0 <= l < |pages[p]| ==> IsAsciiText(pages[p][l]) && |pages[p][l]| == CARD_LENGTH)
  }

  /** `encoded` is `pages` written card by card as ASCII bytes. */
  predicate AsciiEncoded(pages: seq<TextPage>, encoded: seq<Page>)
    requires AsciiCardPages(pages)
  {
    |encoded| == |pages| &&
    forall p :: 0 <= p < |pages| ==> (WellFormedPage(encoded[p]) &&
      forall l :: 0 <= l < CARDS_PER_HEADER ==> encoded[p][l] == Ascii(pages[p][l]))
  }

  /** Pages of forty 80-character ASCII cards, in an ASCII encoding, are
      accepted and encoded card by card. */
  lemma EncodeAsciiPages(codec: Codec, pages: seq<TextPage>)
    requires EncodesAscii(codec) && AsciiCardPages(pages)
    ensures EncodePages(codec, pages).Ok?
    ensures AsciiEncoded(pages, EncodePages(codec, pages).value)
  {
    EncodePagesOk(codec, pages);
  }

  /** If only the last of some ASCII pages has the stanza in its first card,
      the same holds of their encoding. */
  lemma EncodedStanzaOnLast(pages: seq<TextPage>, encoded: seq<Page>)
    requires AsciiCardPages(pages) && AsciiEncoded(pages, encoded) && |pages| > 0
    requires forall p :: 0 <= p < |pages| ==>
      (Contains(pages[p][0], END_TEXT_STANZA) <==> p == |pages| - 1)
    ensures StanzaOnLastPage(encoded)
  {
    StanzaIsAscii();
    forall p | 0 <= p < |encoded|
      ensures HasEndTextStanza(encoded[p]) <==> p == |encoded| - 1
    {
      ContainsAscii(pages[p][0], END_TEXT_STANZA);
    }
  }

  /** The pages formatted from ASCII text with the stop page: forty ASCII
      cards of 80 characters each, the stop page last. */
  lemma FormatWithStopShape(text: string, codec: Codec)
    requires codec.supported && IsAsciiText(text)
    ensures var pages := FormatSpec(text, codec, true).value;
      |pages| == |FormatPages(text)| + 1 && pages[|pages| - 1] == StopPage() &&
      (forall p :: 0 <= p < |FormatPages(text)| ==> pages[p] == FormatPages(text)[p]) &&
      AsciiCardPages(pages)
  {
    var pages := FormatSpec(text, codec, true).value;
    FormatPagesShape(text);
    FormattedCardsAscii(text);
    StanzaFormatsToOnePage();
    FormatPagesShape(END_TEXT_STANZA);
    StanzaIsAscii();
    FormattedCardsAscii(END_TEXT_STANZA);
    StopCardHasStanza();
  }

  /** Encoded in ASCII, the formatted pages with the stop page are
      well-formed, and only the last one has the stanza. */
  lemma FormatWithStopEncoded(text: string, codec: Codec)
    requires codec.supported && EncodesAscii(codec) && IsAsciiText(text)
    requires forall p :: 0 <= p < |FormatPages(text)| ==>
      !Contains(FormatPages(text)[p][0], END_TEXT_STANZA)
    ensures FormatSpec(text, codec, true).Ok?
    ensures EncodePages(codec, FormatSpec(text, codec, true).value).Ok?
    ensures var pages := FormatSpec(text, codec, true).value;
      var encoded := EncodePages(codec, pages).value;
      |encoded| == |pages| == |FormatPages(text)| + 1 && StanzaOnLastPage(encoded)
  {
    var pages := FormatSpec(text, codec, true).value;
    FormatWithStopShape(text, codec);
    EncodeAsciiPages(codec, pages);
    StopCardHasStanza();
    var encoded := EncodePages(codec, pages).value;
    forall p | 0 <= p < |pages|
      ensures Contains(pages[p][0], END_TEXT_STANZA) <==> p == |pages| - 1
    {
      if p < |pages| - 1 {
        assert pages[p] == FormatPages(text)[p];
      }
    }
    EncodedStanzaOnLast(pages, encoded);
  }

  /**
   * Formatting ASCII text with the stop page, writing it in an ASCII
   * encoding and reading from the same offset in until-end mode gives back
   * exactly the written pages, provided no page of the text itself has the
   * stanza in its first card.
   */
  lemma FormatWriteReadUntilEnd(text: string, codec: Codec, pages: seq<TextPage>,
                                 encoded: seq<Page>, out: seq<byte>, at: nat)
    requires codec.supported && EncodesAscii(codec) && IsAsciiText(text)
    requires forall p :: 0 <= p < |FormatPages(text)| ==>
      !Contains(FormatPages(text)[p][0], END_TEXT_STANZA)
    requires FormatSpec(text, codec, true) == Ok(pages)
    requires EncodePages(codec, pages) == Ok(encoded)
    ensures |encoded| == |FormatPages(text)| + 1
    ensures HoldsAt(out, at, PagesBytes(encoded)) ==>
      UntilEnd(out, at) == Ok((encoded, at + 3200 * |encoded|))
  {
    FormatWithStopEncoded(text, codec);
    if HoldsAt(out, at, PagesBytes(encoded)) {
      WriteThenReadUntilEnd(out, at, encoded);
    }
  }
}
