/**
 * catalog_traces of segpy/toolkit.py: one forward pass over the trace
 * records that follow the reel headers. Each record is a 240-byte trace
 * header followed by ns samples of bps bytes; the pass stops at the first
 * position with fewer than 240 bytes left, and hands (key, value) pairs to
 * five catalog builders: trace number to header offset, trace number to
 * sample count, CDP number to trace number, and two candidate line
 * catalogs keyed by (Inline3D, Crossline3D) and by (TraceSequenceFile, cdp).
 *
 * Decoding a trace header is a parameter (the compiled trace header format
 * applied to 240 bytes), and so is CatalogBuilder.create, which turns the
 * pairs added to a builder into a catalog or into None.
 */
module Catalog {
  import opened SegyBase
  import opened BinaryValues

  /** The trace header items the scan uses. */
  datatype TraceHeaderFields =
    TraceHeaderFields(ns: nat, inline3D: int, crossline3D: int, traceSequenceFile: int, cdp: int)

  /** A catalog key: a trace or CDP number, or a pair of line numbers. */
  datatype Key = Number(n: int) | Pair(first: int, second: int)

  /** The `progress` argument: omitted (None), a callable, or an object that is not callable. */
  datatype ProgressArg = Omitted | Callable | NotCallable

  /** A record the scan visits: the offset of its header and what the header holds. */
  datatype Trace = Trace(pos: nat, header: TraceHeaderFields)

  /** The 4-tuple catalog_traces returns; each catalog is None when create() gives None. */
  datatype Catalogs<C> = Catalogs(offsets: Option<C>, lengths: Option<C>, cdps: Option<C>, lines: Option<C>)

  /** _READ_PROPORTION: the share of the progress range given to reading the file. */
  const READ_PROPORTION: real := 0.75

  /** The arguments of the progress calls after the pass, the last being 1. */
  const CLOSING_REPORTS: seq<real> :=
    [READ_PROPORTION, READ_PROPORTION + READ_PROPORTION / 4.0, READ_PROPORTION + READ_PROPORTION / 2.0,
     READ_PROPORTION + READ_PROPORTION * 3.0 / 4.0, 1.0]

  /** The bytes of one trace record: the header and ns samples of bps bytes. */
  function RecordBytes(h: TraceHeaderFields, bps: nat): nat {
    TRACE_HEADER_NUM_BYTES + h.ns * bps
  }

  // ---------------------------------------------------------------------
  // The pass over the records
  // ---------------------------------------------------------------------

  /** The records visited from cursor pos, in file order. */
  function Scan(file: seq<byte>, pos: nat, bps: nat, decode: seq<byte> -> TraceHeaderFields): seq<Trace>
    decreases |file| - pos
  {
    if pos + TRACE_HEADER_NUM_BYTES > |file| then []
    else
      var h := decode(file[pos .. pos + TRACE_HEADER_NUM_BYTES]);
      [Trace(pos, h)] + Scan(file, pos + RecordBytes(h, bps), bps, decode)
  }

  /** The cursor at which the pass from pos stops. */
  function ScanEnd(file: seq<byte>, pos: nat, bps: nat, decode: seq<byte> -> TraceHeaderFields): nat
    decreases |file| - pos
  {
    if pos + TRACE_HEADER_NUM_BYTES > |file| then pos
    else
      var h := decode(file[pos .. pos + TRACE_HEADER_NUM_BYTES]);
      ScanEnd(file, pos + RecordBytes(h, bps), bps, decode)
  }

  /** The bytes the records occupy, headers and samples. */
  function TotalBytes(traces: seq<Trace>, bps: nat): nat
    decreases |traces|
  {
    if traces == [] then 0 else RecordBytes(traces[0].header, bps) + TotalBytes(traces[1..], bps)
  }

  /**
   * Trace i's header starts where the records before it end: at the start
   * cursor plus the 240 + ns * bps bytes of each earlier record.
   */
  lemma {:induction false} ScanOffsets(file: seq<byte>, start: nat, bps: nat, decode: seq<byte> -> TraceHeaderFields)
    ensures forall i :: 0 <= i < |Scan(file, start, bps, decode)| ==>
      Scan(file, start, bps, decode)[i].pos == start + TotalBytes(Scan(file, start, bps, decode)[..i], bps)
    decreases |file| - start
  {
    var traces := Scan(file, start, bps, decode);
    if traces != [] {
      var t := traces[0];
      var next := start + RecordBytes(t.header, bps);
      var rest := Scan(file, next, bps, decode);
      assert traces == [t] + rest;
      ScanOffsets(file, next, bps, decode);
      forall i | 0 < i < |traces|
        ensures traces[i].pos == start + TotalBytes(traces[..i], bps)
      {
        var before := traces[..i];
        assert before[0] == t && before[1..] == rest[..i - 1];
        assert TotalBytes(before, bps) == RecordBytes(t.header, bps) + TotalBytes(rest[..i - 1], bps);
        assert traces[i] == rest[i - 1];
      }
    }
  }

  /**
   * The pass stops at the first cursor with fewer than 240 bytes after it,
   * which is where the records end; every visited header lies wholly in the
   * file and is decoded from its own 240 bytes (its samples are not
   * checked).
   */
  lemma {:induction false} ScanStops(file: seq<byte>, start: nat, bps: nat, decode: seq<byte> -> TraceHeaderFields)
    ensures ScanEnd(file, start, bps, decode) == start + TotalBytes(Scan(file, start, bps, decode), bps)
    ensures ScanEnd(file, start, bps, decode) + TRACE_HEADER_NUM_BYTES > |file|
    ensures var traces := Scan(file, start, bps, decode);
      forall i :: 0 <= i < |traces| ==>
        traces[i].pos + TRACE_HEADER_NUM_BYTES <= |file| &&
        traces[i].header == decode(file[traces[i].pos .. traces[i].pos + TRACE_HEADER_NUM_BYTES])
    decreases |file| - start
  {
    var traces := Scan(file, start, bps, decode);
    if traces != [] {
      var t := traces[0];
      var next := start + RecordBytes(t.header, bps);
      var rest := Scan(file, next, bps, decode);
      assert traces == [t] + rest;
      assert traces[1..] == rest;
      ScanStops(file, next, bps, decode);
      forall i | 0 < i < |traces|
        ensures traces[i].pos + TRACE_HEADER_NUM_BYTES <= |file|
        ensures traces[i].header == decode(file[traces[i].pos .. traces[i].pos + TRACE_HEADER_NUM_BYTES])
      {
        assert traces[i] == rest[i - 1];
      }
    }
  }

  // ---------------------------------------------------------------------
  // What the builders receive
  // ---------------------------------------------------------------------

  /** trace number -> header offset */
  function OffsetEntries(traces: seq<Trace>): seq<(Key, int)> {
    seq(|traces|, i requires 0 <= i < |traces| => (Number(i), traces[i].pos as int))
  }

  /** trace number -> number of samples */
  function LengthEntries(traces: seq<Trace>): seq<(Key, int)> {
    seq(|traces|, i requires 0 <= i < |traces| => (Number(i), traces[i].header.ns as int))
  }

  /** CDP number -> trace number */
  function CdpEntries(traces: seq<Trace>): seq<(Key, int)> {
    seq(|traces|, i requires 0 <= i < |traces| => (Number(traces[i].header.cdp), i))
  }

  /** (Inline3D, Crossline3D) -> trace number */
  function LineEntries(traces: seq<Trace>): seq<(Key, int)> {
    seq(|traces|, i requires 0 <= i < |traces| =>
      (Pair(traces[i].header.inline3D, traces[i].header.crossline3D), i))
  }

  /** (TraceSequenceFile, cdp) -> trace number, the fallback line catalog */
  function AltLineEntries(traces: seq<Trace>): seq<(Key, int)> {
    seq(|traces|, i requires 0 <= i < |traces| =>
      (Pair(traces[i].header.traceSequenceFile, traces[i].header.cdp), i))
  }

  /** Every builder gets one entry per record, the next one for each record visited. */
  lemma EntriesSnoc(done: seq<Trace>, t: Trace)
    ensures OffsetEntries(done + [t]) == OffsetEntries(done) + [(Number(|done|), t.pos as int)]
    ensures LengthEntries(done + [t]) == LengthEntries(done) + [(Number(|done|), t.header.ns as int)]
    ensures CdpEntries(done + [t]) == CdpEntries(done) + [(Number(t.header.cdp), |done|)]
    ensures LineEntries(done + [t]) == LineEntries(done) + [(Pair(t.header.inline3D, t.header.crossline3D), |done|)]
    ensures AltLineEntries(done + [t]) ==
      AltLineEntries(done) + [(Pair(t.header.traceSequenceFile, t.header.cdp), |done|)]
  {
    assert forall i :: 0 <= i < |done| ==> (done + [t])[i] == done[i];
    assert (done + [t])[|done|] == t;
  }

  /** The arguments of the progress calls made before each read. */
  function Fractions(cursors: seq<nat>, length: nat): (r: seq<real>)
    requires length > 0
    ensures |r| == |cursors|
  {
    seq(|cursors|, i requires 0 <= i < |cursors| => READ_PROPORTION * cursors[i] as real / length as real)
  }

  function Positions(traces: seq<Trace>): (r: seq<nat>)
    ensures |r| == |traces|
  {
    seq(|traces|, i requires 0 <= i < |traces| => traces[i].pos)
  }

  lemma FractionsSnoc(cursors: seq<nat>, p: nat, length: nat)
    requires length > 0
    ensures Fractions(cursors + [p], length) == Fractions(cursors, length) + [READ_PROPORTION * p as real / length as real]
  {
    assert forall i :: 0 <= i < |cursors| ==> (cursors + [p])[i] == cursors[i];
  }

  lemma PositionsSnoc(done: seq<Trace>, t: Trace)
    ensures Positions(done + [t]) == Positions(done) + [t.pos]
  {
    assert forall i :: 0 <= i < |done| ==> (done + [t])[i] == done[i];
  }

  // ---------------------------------------------------------------------
  // catalog_traces
  // ---------------------------------------------------------------------

  /** One more record read: the pass from start is the records so far, this one, and the pass after it. */
  lemma ScanLoopStep(file: seq<byte>, start: nat, pos: nat, bps: nat, decode: seq<byte> -> TraceHeaderFields,
                     done: seq<Trace>)
    requires Scan(file, start, bps, decode) == done + Scan(file, pos, bps, decode)
    requires pos + TRACE_HEADER_NUM_BYTES <= |file|
    ensures var h := decode(file[pos .. pos + TRACE_HEADER_NUM_BYTES]);
      Scan(file, start, bps, decode) == (done + [Trace(pos, h)]) + Scan(file, pos + RecordBytes(h, bps), bps, decode) &&
      ScanEnd(file, pos, bps, decode) == ScanEnd(file, pos + RecordBytes(h, bps), bps, decode)
  {
  }

  /**
   * catalog_traces over the file image from cursor start. A progress
   * argument that is not callable raises TypeError before anything else;
   * an empty file raises ZeroDivisionError at the first progress fraction.
   * Otherwise each builder receives one pair per record the pass visits,
   * the line catalog falls back to the (TraceSequenceFile, cdp) catalog
   * when create() gives None, and the progress callback (a do-nothing one
   * when progress is omitted) receives the fraction before each read and
   * then the closing values, the last of which is 1.
   */
  method CatalogTraces<C>(file: seq<byte>, start: nat, bps: nat, decode: seq<byte> -> TraceHeaderFields,
                          progress: ProgressArg, create: seq<(Key, int)> -> Option<C>)
    returns (r: Result<Catalogs<C>>, reports: seq<real>)
    ensures progress == NotCallable ==> r == Err(TypeError) && reports == []
    ensures progress != NotCallable && |file| == 0 ==> r == Err(ZeroDivisionError) && reports == []
    ensures progress != NotCallable && |file| > 0 ==>
      var traces := Scan(file, start, bps, decode);
      r == Ok(Catalogs(create(OffsetEntries(traces)), create(LengthEntries(traces)), create(CdpEntries(traces)),
                       if create(LineEntries(traces)).Some? then create(LineEntries(traces))
                       else create(AltLineEntries(traces)))) &&
      reports == Fractions(Positions(traces) + [ScanEnd(file, start, bps, decode)], |file|) + CLOSING_REPORTS
    ensures r.Ok? ==> reports != [] && reports[|reports| - 1] == 1.0
  {
    if progress == NotCallable {
      return Err(TypeError), [];
    }
    var length := |file|;
    var pos := start;
    var traceNumber := 0;
    var offsets, lengths, cdps, lines, altLines := [], [], [], [], [];
    reports := [];
    ghost var done: seq<Trace> := [];
    while true
      invariant Scan(file, start, bps, decode) == done + Scan(file, pos, bps, decode)
      invariant ScanEnd(file, start, bps, decode) == ScanEnd(file, pos, bps, decode)
      invariant traceNumber == |done|
      invariant offsets == OffsetEntries(done) && lengths == LengthEntries(done) && cdps == CdpEntries(done)
      invariant lines == LineEntries(done) && altLines == AltLineEntries(done)
      invariant length == 0 ==> reports == []
      invariant length > 0 ==> reports == Fractions(Positions(done), length)
      decreases if pos <= |file| then |file| - pos else 0
    {
      if length == 0 {
        return Err(ZeroDivisionError), reports;
      }
      FractionsSnoc(Positions(done), pos, length);
      reports := reports + [READ_PROPORTION * pos as real / length as real];
      var data := ReadAt(file, pos, TRACE_HEADER_NUM_BYTES);
      if |data| < TRACE_HEADER_NUM_BYTES {
        break;
      }
      var header := decode(data);
      ScanLoopStep(file, start, pos, bps, decode, done);
      EntriesSnoc(done, Trace(pos, header));
      PositionsSnoc(done, Trace(pos, header));
      lengths := lengths + [(Number(traceNumber), header.ns as int)];
      var samplesBytes := header.ns * bps;
      offsets := offsets + [(Number(traceNumber), pos as int)];
      lines := lines + [(Pair(header.inline3D, header.crossline3D), traceNumber)];
      altLines := altLines + [(Pair(header.traceSequenceFile, header.cdp), traceNumber)];
      cdps := cdps + [(Number(header.cdp), traceNumber)];
      done := done + [Trace(pos, header)];
      pos := pos + TRACE_HEADER_NUM_BYTES + samplesBytes;
      traceNumber := traceNumber + 1;
    }
    assert Scan(file, pos, bps, decode) == [] && done + [] == done;

    reports := reports + [READ_PROPORTION];
    var offsetCatalog := create(offsets);
    reports := reports + [READ_PROPORTION + READ_PROPORTION / 4.0];
    var lengthCatalog := create(lengths);
    reports := reports + [READ_PROPORTION + READ_PROPORTION / 2.0];
    var cdpCatalog := create(cdps);
    reports := reports + [READ_PROPORTION + READ_PROPORTION * 3.0 / 4.0];
    var lineCatalog := create(lines);
    if lineCatalog.None? {
      lineCatalog := create(altLines);
    }
    reports := reports + [1.0];
    return Ok(Catalogs(offsetCatalog, lengthCatalog, cdpCatalog, lineCatalog)), reports;
  }
}
