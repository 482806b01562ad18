/**
 * Reading the textual reel header and the extended textual headers of
 * segpy/toolkit.py. The file is a byte sequence and a read cursor; text
 * decoding is the identity, so a card (line) is its 80 bytes and a page is
 * forty cards.
 */
module TextualHeaders {
  import opened SegyBase

  const CARD_LENGTH: nat := 80
  const CARDS_PER_HEADER: nat := 40
  const TEXTUAL_HEADER_NUM_BYTES: nat := CARD_LENGTH * CARDS_PER_HEADER
  const BINARY_HEADER_NUM_BYTES: nat := 400
  const REEL_HEADER_NUM_BYTES: nat := TEXTUAL_HEADER_NUM_BYTES + BINARY_HEADER_NUM_BYTES
  const END_TEXT_STANZA: string := "((SEG: EndText))"

  type Line = seq<byte>
  type Page = seq<Line>

  function StanzaBytes(): (r: seq<byte>)
    ensures |r| == 16
  {
    Ascii(END_TEXT_STANZA)
  }

  // ---------------------------------------------------------------------
  // read_textual_reel_header and has_end_text_stanza
  // ---------------------------------------------------------------------

  /** batched(raw_header, CARD_LENGTH): the forty consecutive 80-byte cards. */
  function Cards(raw: seq<byte>): (r: Page)
    requires |raw| == TEXTUAL_HEADER_NUM_BYTES
    ensures |r| == CARDS_PER_HEADER
    ensures forall i :: 0 <= i < |r| ==> |r[i]| == CARD_LENGTH && r[i] == raw[80 * i .. 80 * i + 80]
  {
    seq(40, i requires 0 <= i < 40 => raw[80 * i .. 80 * i + 80])
  }

  /** Joining the cards of a page gives back the raw 3200 bytes. */
  lemma CardsJoin(raw: seq<byte>)
    requires |raw| == TEXTUAL_HEADER_NUM_BYTES
    ensures Flatten(Cards(raw)) == raw
  {
    var cards := Cards(raw);
    FlattenUniformLength(cards, 80);
    forall j | 0 <= j < |raw|
      ensures Flatten(cards)[j] == raw[j]
    {
      var k := j / 80;
      FlattenUniformPart(cards, 80, k);
      assert Flatten(cards)[80 * k .. 80 * k + 80][j - 80 * k] == cards[k][j - 80 * k];
    }
  }

  /**
   * read_textual_reel_header at cursor pos: 3200 bytes split into cards and
   * the cursor after them; a short read raises EOFError.
   */
  function ReadTextualReelHeader(file: seq<byte>, pos: nat): (r: Result<(Page, nat)>)
    ensures r.Err? <==> pos + TEXTUAL_HEADER_NUM_BYTES > |file|
    ensures r.Err? ==> r.error == EOFError
    ensures r.Ok? ==> r.value.1 == pos + TEXTUAL_HEADER_NUM_BYTES && r.value.1 <= |file|
    ensures r.Ok? ==> Flatten(r.value.0) == file[pos .. pos + TEXTUAL_HEADER_NUM_BYTES]
    ensures r.Ok? ==> (|r.value.0| == CARDS_PER_HEADER &&
      forall i :: 0 <= i < CARDS_PER_HEADER ==> |r.value.0[i]| == CARD_LENGTH)
  {
    if pos + TEXTUAL_HEADER_NUM_BYTES > |file| then Err(EOFError)
    else
      var raw := file[pos .. pos + TEXTUAL_HEADER_NUM_BYTES];
      CardsJoin(raw);
      Ok((Cards(raw), pos + TEXTUAL_HEADER_NUM_BYTES))
  }

  /** Python's `needle in hay` for strings and byte strings. */
  function Contains<T(==)>(hay: seq<T>, needle: seq<T>): bool
    decreases |hay|
  {
    if |needle| > |hay| then false
    else if hay[..|needle|] == needle then true
    else Contains(hay[1..], needle)
  }

  /** needle occurs in hay at offset i. */
  predicate OccursAt<T(==)>(hay: seq<T>, needle: seq<T>, i: nat) {
    i + |needle| <= |hay| && hay[i .. i + |needle|] == needle
  }

  /** Contains agrees with "needle occurs in hay at some offset". */
  lemma {:induction false} ContainsIff<T>(hay: seq<T>, needle: seq<T>)
    ensures Contains(hay, needle) <==> exists i: nat :: OccursAt(hay, needle, i)
    decreases |hay|
  {
    if |needle| > |hay| {
      assert forall i: nat :: !OccursAt(hay, needle, i);
    } else if hay[..|needle|] == needle {
      assert OccursAt(hay, needle, 0);
    } else {
      ContainsIff(hay[1..], needle);
      if Contains(hay, needle) {
        var i: nat :| OccursAt(hay[1..], needle, i);
        assert hay[i + 1 .. i + 1 + |needle|] == hay[1..][i .. i + |needle|];
        assert OccursAt(hay, needle, i + 1);
      } else {
        forall i: nat | OccursAt(hay, needle, i)
          ensures false
        {
          assert i != 0;
          assert hay[1..][i - 1 .. i - 1 + |needle|] == hay[i .. i + |needle|];
          assert OccursAt(hay[1..], needle, i - 1);
        }
      }
    }
  }

  /** has_end_text_stanza: the stanza occurs in the first line. */
  predicate HasEndTextStanza(page: Page)
    requires |page| > 0
  {
    Contains(page[0], StanzaBytes())
  }

  // ---------------------------------------------------------------------
  // The two extended header readers, as functions of the file and cursor
  // ---------------------------------------------------------------------

  /** Page k counted from cursor pos. */
  function NthPage(file: seq<byte>, pos: nat, k: nat): (r: Page)
    requires pos + 3200 * (k + 1) <= |file|
    ensures |r| == CARDS_PER_HEADER
  {
    ReadTextualReelHeader(file, pos + 3200 * k).value.0
  }

  /** Put pages before those of a successful result. */
  function Prepend(pages: seq<Page>, r: Result<(seq<Page>, nat)>): Result<(seq<Page>, nat)> {
    if r.Err? then r else Ok((pages + r.value.0, r.value.1))
  }

  /** read_extended_headers_until_end from cursor pos: pages up to and
      including the first one with the stanza, and the cursor after it. */
  function UntilEnd(file: seq<byte>, pos: nat): Result<(seq<Page>, nat)>
    decreases |file| - pos
  {
    var (page, next) :- ReadTextualReelHeader(file, pos);
    if HasEndTextStanza(page) then Ok(([page], next))
    else Prepend([page], UntilEnd(file, next))
  }

  /** read_extended_headers_counted from cursor pos: at most n pages,
      stopping (after consuming it) at the first page with the stanza. */
  function Counted(file: seq<byte>, pos: nat, n: int): Result<(seq<Page>, nat)>
    decreases if n < 0 then 0 else n
  {
    if n < 0 then Err(AssertionError)
    else if n == 0 then Ok(([], pos))
    else
      var (page, next) :- ReadTextualReelHeader(file, pos);
      if HasEndTextStanza(page) then Ok(([], next))
      else Prepend([page], Counted(file, next, n - 1))
  }

  /** Page k is the cards of the 3200 bytes at pos + 3200 * k. */
  lemma NthPageBytes(file: seq<byte>, pos: nat, k: nat, lo: nat)
    requires lo == 3200 * k && pos + lo + 3200 <= |file|
    ensures NthPage(file, pos, k) == Cards(file[pos + lo .. pos + lo + 3200])
  {
  }

  lemma NthPageStep(file: seq<byte>, pos: nat, k: nat)
    requires pos + 3200 * (k + 2) <= |file|
    ensures NthPage(file, pos, k + 1) == NthPage(file, pos + TEXTUAL_HEADER_NUM_BYTES, k)
  {
  }

  /** The number of complete 3200-byte pages from the cursor to the end. */
  function PagesAvailable(file: seq<byte>, pos: nat): (r: nat)
    ensures pos + 3200 * r <= |file| || r == 0
    ensures pos + 3200 * (r + 1) > |file|
    decreases |file| - pos
  {
    if pos + TEXTUAL_HEADER_NUM_BYTES > |file| then 0
    else 1 + PagesAvailable(file, pos + TEXTUAL_HEADER_NUM_BYTES)
  }

  /** Page k is complete exactly when k is below PagesAvailable. */
  lemma PagesAvailableIff(file: seq<byte>, pos: nat, k: nat)
    ensures pos + 3200 * (k + 1) <= |file| <==> k < PagesAvailable(file, pos)
  {
    var r := PagesAvailable(file, pos);
    if k < r {
      MulMonotone(TEXTUAL_HEADER_NUM_BYTES, k + 1, r);
    } else {
      MulMonotone(TEXTUAL_HEADER_NUM_BYTES, r + 1, k + 1);
    }
  }

  lemma PrependEmpty(r: Result<(seq<Page>, nat)>)
    ensures Prepend([], r) == r
  {
    if r.Ok? {
      assert [] + r.value.0 == r.value.0;
    }
  }

  lemma PrependPrepend(a: seq<Page>, b: seq<Page>, r: Result<(seq<Page>, nat)>)
    ensures Prepend(a, Prepend(b, r)) == Prepend(a + b, r)
  {
    if r.Ok? {
      assert a + (b + r.value.0) == (a + b) + r.value.0;
    }
  }

  /** Page k + 1 from pos is page k from the next cursor, for every page
      that is complete there. */
  lemma PagesShift(file: seq<byte>, pos: nat, next: nat)
    requires next == pos + 3200 <= |file|
    ensures PagesAvailable(file, pos) == 1 + PagesAvailable(file, next)
    ensures forall k :: 0 <= k < PagesAvailable(file, next) ==>
      NthPage(file, pos, k + 1) == NthPage(file, next, k)
  {
    forall k | 0 <= k < PagesAvailable(file, next)
      ensures NthPage(file, pos, k + 1) == NthPage(file, next, k)
    {
      PagesAvailableIff(file, next, k);
      NthPageStep(file, pos, k);
    }
  }

  /** Until-end mode returns at least one page, the consecutive pages from
      the cursor, and leaves the cursor after the last of them. */
  lemma {:induction false} UntilEndPages(file: seq<byte>, pos: nat)
    ensures var r := UntilEnd(file, pos);
      r.Ok? ==> (1 <= |r.value.0| <= PagesAvailable(file, pos) &&
        r.value.1 == pos + 3200 * |r.value.0| &&
        forall k :: 0 <= k < |r.value.0| ==> r.value.0[k] == NthPage(file, pos, k))
    decreases |file| - pos
  {
    var h := ReadTextualReelHeader(file, pos);
    if h.Ok? && !HasEndTextStanza(h.value.0) {
      var next := h.value.1;
      UntilEndPages(file, next);
      PagesShift(file, pos, next);
      var rest := UntilEnd(file, next);
      if rest.Ok? {
        var pages := [h.value.0] + rest.value.0;
        forall k | 1 <= k < |pages|
          ensures pages[k] == NthPage(file, pos, k)
        {
          assert pages[k] == rest.value.0[k - 1];
        }
      }
    }
  }

  /** In the pages until-end mode returns, the stanza is on the last page
      and on no other. */
  lemma {:induction false} UntilEndStanza(file: seq<byte>, pos: nat)
    ensures var r := UntilEnd(file, pos);
      r.Ok? ==> (|r.value.0| >= 1 &&
        forall k :: 0 <= k < |r.value.0| ==>
          |r.value.0[k]| == CARDS_PER_HEADER && (HasEndTextStanza(r.value.0[k]) <==> k == |r.value.0| - 1))
    decreases |file| - pos
  {
    var h := ReadTextualReelHeader(file, pos);
    if h.Ok? && !HasEndTextStanza(h.value.0) {
      var next := h.value.1;
      UntilEndStanza(file, next);
      var rest := UntilEnd(file, next);
      if rest.Ok? {
        var pages := [h.value.0] + rest.value.0;
        forall k | 1 <= k < |pages|
          ensures |pages[k]| == CARDS_PER_HEADER && (HasEndTextStanza(pages[k]) <==> k == |pages| - 1)
        {
          assert pages[k] == rest.value.0[k - 1];
        }
      }
    }
  }

  /** Until-end mode raises EOFError exactly when none of the complete
      pages from the cursor has the stanza. */
  lemma {:induction false} UntilEndErr(file: seq<byte>, pos: nat)
    ensures UntilEnd(file, pos).Err? <==>
      forall k :: 0 <= k < PagesAvailable(file, pos) ==> !HasEndTextStanza(NthPage(file, pos, k))
    ensures UntilEnd(file, pos).Err? ==> UntilEnd(file, pos).error == EOFError
    decreases |file| - pos
  {
    var h := ReadTextualReelHeader(file, pos);
    if h.Ok? {
      var next := h.value.1;
      assert h.value.0 == NthPage(file, pos, 0);
      PagesShift(file, pos, next);
      if !HasEndTextStanza(h.value.0) {
        UntilEndErr(file, next);
        if UntilEnd(file, next).Err? {
          forall k | 1 <= k < PagesAvailable(file, pos)
            ensures !HasEndTextStanza(NthPage(file, pos, k))
          {
            assert !HasEndTextStanza(NthPage(file, next, k - 1));
          }
        }
      }
    }
  }

  /** Counted mode raises AssertionError exactly for a negative count. */
  lemma {:induction false} CountedAssertion(file: seq<byte>, pos: nat, n: int)
    ensures Counted(file, pos, n) == Err(AssertionError) <==> n < 0
    decreases if n < 0 then 0 else n
  {
    if n > 0 {
      var h := ReadTextualReelHeader(file, pos);
      if h.Ok? && !HasEndTextStanza(h.value.0) {
        CountedAssertion(file, h.value.1, n - 1);
      }
    }
  }

  /** Counted mode returns at most n pages, the consecutive pages from the
      cursor, none of which has the stanza. */
  lemma {:induction false} CountedPages(file: seq<byte>, pos: nat, n: int)
    ensures var r := Counted(file, pos, n);
      r.Ok? ==> (|r.value.0| <= n && |r.value.0| <= PagesAvailable(file, pos) &&
        forall k :: 0 <= k < |r.value.0| ==>
          r.value.0[k] == NthPage(file, pos, k) && !HasEndTextStanza(r.value.0[k]))
    decreases if n < 0 then 0 else n
  {
    if n > 0 {
      var h := ReadTextualReelHeader(file, pos);
      if h.Ok? && !HasEndTextStanza(h.value.0) {
        var next := h.value.1;
        CountedPages(file, next, n - 1);
        PagesShift(file, pos, next);
        var rest := Counted(file, next, n - 1);
        if rest.Ok? {
          var pages := [h.value.0] + rest.value.0;
          forall k | 1 <= k < |pages|
            ensures pages[k] == NthPage(file, pos, k) && !HasEndTextStanza(pages[k])
          {
            assert pages[k] == rest.value.0[k - 1];
          }
        }
      }
    }
  }

  /** After n pages the cursor is n pages on; fewer than n pages means the
      next page was read, has the stanza, and the cursor is after it. */
  lemma {:induction false} CountedCursor(file: seq<byte>, pos: nat, n: int)
    ensures var r := Counted(file, pos, n);
      r.Ok? && |r.value.0| == n ==> r.value.1 == pos + 3200 * n
    ensures var r := Counted(file, pos, n);
      r.Ok? && |r.value.0| < n ==> (|r.value.0| < PagesAvailable(file, pos) &&
        r.value.1 == pos + 3200 * (|r.value.0| + 1) &&
        HasEndTextStanza(NthPage(file, pos, |r.value.0|)))
    decreases if n < 0 then 0 else n
  {
    if n > 0 {
      var h := ReadTextualReelHeader(file, pos);
      if h.Ok? {
        var next := h.value.1;
        assert h.value.0 == NthPage(file, pos, 0);
        PagesShift(file, pos, next);
        if !HasEndTextStanza(h.value.0) {
          CountedCursor(file, next, n - 1);
          var rest := Counted(file, next, n - 1);
          if rest.Ok? && |rest.value.0| < n - 1 {
            assert NthPage(file, pos, |rest.value.0| + 1) == NthPage(file, next, |rest.value.0|);
          }
        }
      }
    }
  }

  /** Counted mode with n >= 0 fails only with EOFError, when fewer than n
      complete pages remain and none of them has the stanza. */
  lemma {:induction false} CountedErr(file: seq<byte>, pos: nat, n: int)
    ensures var r := Counted(file, pos, n);
      r.Err? && n >= 0 ==> (r.error == EOFError && PagesAvailable(file, pos) < n &&
        forall k :: 0 <= k < PagesAvailable(file, pos) ==> !HasEndTextStanza(NthPage(file, pos, k)))
    decreases if n < 0 then 0 else n
  {
    if n > 0 {
      var h := ReadTextualReelHeader(file, pos);
      if h.Ok? {
        var next := h.value.1;
        assert h.value.0 == NthPage(file, pos, 0);
        if !HasEndTextStanza(h.value.0) {
          CountedErr(file, next, n - 1);
          PagesShift(file, pos, next);
          if Counted(file, next, n - 1).Err? {
            forall k | 1 <= k < PagesAvailable(file, pos)
              ensures !HasEndTextStanza(NthPage(file, pos, k))
            {
              assert !HasEndTextStanza(NthPage(file, next, k - 1));
            }
          }
        }
      }
    }
  }

  /** With n complete pages from the cursor and no stanza among them,
      counted mode returns exactly those n pages in file order. */
  lemma CountedNoStanza(file: seq<byte>, pos: nat, n: nat)
    requires n <= PagesAvailable(file, pos)
    requires forall k :: 0 <= k < n ==> !HasEndTextStanza(NthPage(file, pos, k))
    ensures Counted(file, pos, n).Ok?
    ensures Counted(file, pos, n).value ==
      (seq(n, k requires 0 <= k < n => NthPage(file, pos, k)), pos + 3200 * n)
  {
    CountedAssertion(file, pos, n);
    CountedErr(file, pos, n);
    CountedPages(file, pos, n);
    CountedCursor(file, pos, n);
    var r := Counted(file, pos, n);
    assert r.Ok?;
    assert |r.value.0| == n;
    var expected := seq(n, k requires 0 <= k < n => NthPage(file, pos, k));
    forall k | 0 <= k < n
      ensures r.value.0[k] == expected[k]
    {
    }
    assert r.value.0 == expected;
  }

  // ---------------------------------------------------------------------
  // The readers as loops, and the dispatcher
  // ---------------------------------------------------------------------

  /** read_extended_headers_until_end: read a page, append it, stop once it
      has the stanza. */
  method ReadExtendedHeadersUntilEnd(file: seq<byte>, pos: nat) returns (r: Result<(seq<Page>, nat)>)
    ensures r == UntilEnd(file, pos)
  {
    var pages: seq<Page> := [];
    var cur := pos;
    PrependEmpty(UntilEnd(file, pos));
    while true
      invariant UntilEnd(file, pos) == Prepend(pages, UntilEnd(file, cur))
      decreases if cur <= |file| then |file| - cur else 0
    {
      var h := ReadTextualReelHeader(file, cur);
      if h.Err? {
        return Err(h.error);
      }
      var (page, next) := h.value;
      PrependPrepend(pages, [page], UntilEnd(file, next));
      pages := pages + [page];
      cur := next;
      if HasEndTextStanza(page) {
        return Ok((pages, cur));
      }
    }
  }

  /** read_extended_headers_counted: up to n reads, breaking (without
      appending) at the first page with the stanza. */
  method ReadExtendedHeadersCounted(file: seq<byte>, pos: nat, n: int) returns (r: Result<(seq<Page>, nat)>)
    ensures r == Counted(file, pos, n)
  {
    if n < 0 {
      return Err(AssertionError);
    }
    var pages: seq<Page> := [];
    var cur := pos;
    var i := 0;
    PrependEmpty(Counted(file, pos, n));
    while i < n
      invariant 0 <= i <= n
      invariant Counted(file, pos, n) == Prepend(pages, Counted(file, cur, n - i))
    {
      var h := ReadTextualReelHeader(file, cur);
      if h.Err? {
        return Err(h.error);
      }
      var (page, next) := h.value;
      if HasEndTextStanza(page) {
        assert Counted(file, cur, n - i) == Ok(([], next));
        return Ok((pages + [], next));
      }
      PrependPrepend(pages, [page], Counted(file, next, n - i - 1));
      pages := pages + [page];
      cur := next;
      i := i + 1;
    }
    assert pages + [] == pages;
    return Ok((pages, cur));
  }

  /**
   * read_extended_textual_headers: seek past the 3600-byte reel header; a
   * negative declared count reads until the stanza, otherwise exactly the
   * declared number of pages are read (stopping early at the stanza).
   */
  method ReadExtendedTextualHeaders(file: seq<byte>, declared: int) returns (r: Result<(seq<Page>, nat)>)
    ensures declared < 0 ==> r == UntilEnd(file, REEL_HEADER_NUM_BYTES)
    ensures declared >= 0 ==> r == Counted(file, REEL_HEADER_NUM_BYTES, declared)
  {
    if declared < 0 {
      r := ReadExtendedHeadersUntilEnd(file, REEL_HEADER_NUM_BYTES);
    } else {
      r := ReadExtendedHeadersCounted(file, REEL_HEADER_NUM_BYTES, declared);
    }
  }
}
