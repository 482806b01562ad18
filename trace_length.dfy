/**
 * What trace_length_bytes of segpy/toolkit.py means for the trace records
 * catalog_traces steps over: when every record holds the sample count the
 * binary reel header declares, the records lie at whole multiples of the
 * indicative trace length from the first, and the scan ends that many
 * lengths on.
 */
module TraceLength {
  import opened SegyBase
  import opened ReelHeader
  import opened Catalog

  /** Every record visited holds n samples. */
  predicate AllHaveSamples(traces: seq<Trace>, n: nat) {
    forall k :: 0 <= k < |traces| ==> traces[k].header.ns == n
  }

  /** The indicative trace length of a header declaring n samples is the
      length of any record holding n samples. */
  lemma TraceLengthIsRecordBytes(header: map<string, Value>, bps: nat, h: TraceHeaderFields)
    requires "ns" in header && header["ns"] == IntValue(h.ns)
    ensures TraceLengthBytes(header, bps) == Ok(IntValue(RecordBytes(h, bps)))
  {
  }

  /** Records of one length occupy that length once each. */
  lemma {:induction false} UniformTotalBytes(traces: seq<Trace>, bps: nat, n: nat)
    requires AllHaveSamples(traces, n)
    ensures TotalBytes(traces, bps) == |traces| * (TRACE_HEADER_NUM_BYTES + n * bps)
    decreases |traces|
  {
    if traces != [] {
      assert AllHaveSamples(traces[1..], n) by {
        forall k | 0 <= k < |traces[1..]| ensures traces[1..][k].header.ns == n {
          assert traces[1..][k] == traces[k + 1];
        }
      }
      UniformTotalBytes(traces[1..], bps, n);
      var w := TRACE_HEADER_NUM_BYTES + n * bps;
      assert (|traces| - 1) * w + w == |traces| * w;
    }
  }

  /**
   * When the header declares n samples and every record visited holds n
   * samples, trace i starts i trace lengths after the start cursor, and the
   * scan stops |traces| trace lengths after it.
   */
  lemma {:induction false} UniformTraceOffsets(header: map<string, Value>, file: seq<byte>, start: nat, bps: nat,
                                               decode: seq<byte> -> TraceHeaderFields, n: nat)
    requires "ns" in header && header["ns"] == IntValue(n)
    requires AllHaveSamples(Scan(file, start, bps, decode), n)
    ensures TraceLengthBytes(header, bps).Ok? && TraceLengthBytes(header, bps).value.IntValue?
    ensures forall i :: 0 <= i < |Scan(file, start, bps, decode)| ==>
      Scan(file, start, bps, decode)[i].pos == start + i * TraceLengthBytes(header, bps).value.i
    ensures ScanEnd(file, start, bps, decode) ==
      start + |Scan(file, start, bps, decode)| * TraceLengthBytes(header, bps).value.i
  {
    var traces := Scan(file, start, bps, decode);
    var len := TraceLengthBytes(header, bps).value.i;
    assert len == TRACE_HEADER_NUM_BYTES + n * bps;
    ScanOffsets(file, start, bps, decode);
    ScanStops(file, start, bps, decode);
    UniformTotalBytes(traces, bps, n);
    forall i | 0 <= i < |traces|
      ensures traces[i].pos == start + i * len
    {
      assert AllHaveSamples(traces[..i], n) by {
        forall k | 0 <= k < i ensures traces[..i][k].header.ns == n {
          assert traces[..i][k] == traces[k];
        }
      }
      UniformTotalBytes(traces[..i], bps, n);
    }
  }
}
