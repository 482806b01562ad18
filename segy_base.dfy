/**
 * Shared vocabulary of the SEG-Y model: bytes, the Python exceptions the
 * toolkit raises (as an error datatype), byte order, and an output file
 * handle that supports positioned writes.
 */
module SegyBase {

  type byte = x: int | 0 <= x < 256

  /** A 4-byte group: one IBM or IEEE single-precision float on disk. */
  type Bytes4 = s: seq<byte> | |s| == 4 witness [0, 0, 0, 0]

  datatype Option<+T> = None | Some(value: T)

  /** The Python exceptions raised by the modelled code. */
  datatype Error =
    | EOFError                 // a short read
    | ValueError               // a range or shape check failed
    | KeyError                 // a lookup in one of the type tables failed
    | TypeError                // a non-callable progress callback
    | StructError              // struct.pack / struct.Struct refused its input
    | AssertionError           // an `assert` in the toolkit failed
    | ZeroDivisionError        // a progress fraction over an empty file
    | OverflowError            // a float does not fit its 4-byte encoding
    | UnsupportedEncodingError // the text encoding is not supported
    | UnicodeEncodeError       // a line cannot be encoded in the text encoding
    | IndexError               // formatting the message about a page of other than 40 lines
    | SchemaLayoutError        // (corrected layout compiler) fields overlap or do not tile

  datatype Result<+T> = Ok(value: T) | Err(error: Error) {
    predicate IsFailure() { Err? }
    function PropagateFailure<U>(): Result<U> requires Err? { Err(error) }
    function Extract(): T requires Ok? { value }
  }

  /** '>' (big-endian, the SEG-Y standard) and '<' (little-endian). */
  datatype Endian = Big | Little

  /** Every trace record starts with a trace header of this many bytes. */
  const TRACE_HEADER_NUM_BYTES: nat := 240

  /** A homogeneous scalar read from or written to a SEG-Y file. */
  datatype Value = IntValue(i: int) | FloatValue(x: real)

  /** Concatenation of a sequence of sequences, like b''.join. */
  function Flatten<T>(ss: seq<seq<T>>): (r: seq<T>)
    decreases |ss|
  {
    if ss == [] then [] else ss[0] + Flatten(ss[1..])
  }

  lemma {:induction false} FlattenAppend<T>(ss: seq<seq<T>>, s: seq<T>)
    ensures Flatten(ss + [s]) == Flatten(ss) + s
    decreases |ss|
  {
    if ss == [] {
      assert ss + [s] == [s];
    } else {
      assert (ss + [s])[1..] == ss[1..] + [s];
      FlattenAppend(ss[1..], s);
    }
  }

  /** If every part has length w, the concatenation has length w * |ss|. */
  lemma {:induction false} FlattenUniformLength<T>(ss: seq<seq<T>>, w: nat)
    requires forall k :: 0 <= k < |ss| ==> |ss[k]| == w
    ensures |Flatten(ss)| == w * |ss|
    decreases |ss|
  {
    if ss != [] {
      FlattenUniformLength(ss[1..], w);
      assert w * |ss| == w + w * |ss[1..]|;
    }
  }

  /** If every part has length w, part k occupies [w * k, w * k + w). */
  lemma {:induction false} FlattenUniformPart<T>(ss: seq<seq<T>>, w: nat, k: nat)
    requires forall j :: 0 <= j < |ss| ==> |ss[j]| == w
    requires k < |ss|
    ensures w * k + w <= |Flatten(ss)|
    ensures Flatten(ss)[w * k .. w * k + w] == ss[k]
    decreases k
  {
    var rest := Flatten(ss[1..]);
    assert Flatten(ss) == ss[0] + rest;
    if k == 0 {
      FlattenUniformLength(ss, w);
      assert Flatten(ss)[..w] == ss[0];
    } else {
      FlattenUniformPart(ss[1..], w, k - 1);
      var lo := w * (k - 1);
      assert w * k == w + lo;
      SliceAfterPrefix(ss[0], rest, w + lo, w + lo + w);
    }
  }

  lemma SliceOfSlice<T>(s: seq<T>, a: nat, b: nat, i: nat, j: nat)
    requires a <= b <= |s| && i <= j <= b - a
    ensures s[a..b][i..j] == s[a + i .. a + j]
  {
    forall k | 0 <= k < j - i
      ensures s[a..b][i..j][k] == s[a + i .. a + j][k]
    {
      assert s[a..b][i..j][k] == s[a..b][i + k] == s[a + i + k];
    }
  }

  /** A slice that lies wholly in the second part of a concatenation. */
  lemma SliceAfterPrefix<T>(a: seq<T>, b: seq<T>, lo: nat, hi: nat)
    requires |a| <= lo <= hi <= |a| + |b|
    ensures (a + b)[lo .. hi] == b[lo - |a| .. hi - |a|]
  {
    assert (a + b)[|a| ..] == b;
    SliceOfSlice(a + b, |a|, |a| + |b|, lo - |a|, hi - |a|);
  }

  lemma MulMonotone(w: nat, a: nat, b: nat)
    requires a <= b
    ensures w * a <= w * b
  {
  }

  /** The bytes of an ASCII string. */
  function Ascii(s: string): (r: seq<byte>)
    requires forall i :: 0 <= i < |s| ==> s[i] as int < 256
    ensures |r| == |s|
    ensures forall i :: 0 <= i < |s| ==> r[i] == s[i] as int
  {
    seq(|s|, i requires 0 <= i < |s| => s[i] as int as byte)
  }

  function Zeros(n: nat): (r: seq<byte>)
    ensures |r| == n && forall i :: 0 <= i < n ==> r[i] == 0
  {
    seq(n, _ => 0)
  }

  /**
   * The file contents after writing `b` at offset `at`: bytes in
   * [at, at + |b|) are replaced, the file grows if needed, and a write
   * beyond the end leaves zero bytes in the hole (as a POSIX file does); an
   * empty write changes nothing.
   */
  function Overwrite(data: seq<byte>, at: nat, b: seq<byte>): (r: seq<byte>)
    ensures |r| == if b == [] || at + |b| <= |data| then |data| else at + |b|
    ensures b != [] ==> r[at .. at + |b|] == b
    ensures forall i :: 0 <= i < |data| && !(at <= i < at + |b|) ==> r[i] == data[i]
    ensures b != [] ==> forall i :: |data| <= i < at ==> r[i] == 0
  {
    if b == [] then data
    else if at <= |data| then
      data[..at] + b + (if at + |b| < |data| then data[at + |b|..] else [])
    else
      data + Zeros(at - |data|) + b
  }

  /** Bytes [p, p + w) that a write at `at` does not touch keep their values. */
  lemma OverwriteKeepsSlice(data: seq<byte>, at: nat, b: seq<byte>, p: nat, w: nat)
    requires p + w <= |data|
    requires p + w <= at || at + |b| <= p
    ensures p + w <= |Overwrite(data, at, b)|
    ensures Overwrite(data, at, b)[p .. p + w] == data[p .. p + w]
  {
    var r := Overwrite(data, at, b);
    forall i | p <= i < p + w
      ensures r[i] == data[i]
    {
    }
    assert r[p .. p + w] == data[p .. p + w];
  }

  /** The file contents `out` hold `b` at offset `at`. */
  predicate HoldsAt(out: seq<byte>, at: nat, b: seq<byte>) {
    at + |b| <= |out| && out[at .. at + |b|] == b
  }

  /** Part [lo, hi) of bytes held at `at` is the file's [at + lo, at + hi). */
  lemma HoldsAtPart(out: seq<byte>, at: nat, b: seq<byte>, lo: nat, hi: nat)
    requires HoldsAt(out, at, b) && lo <= hi <= |b|
    ensures at + hi <= |out| && out[at + lo .. at + hi] == b[lo .. hi]
  {
    SliceOfSlice(out, at, at + |b|, lo, hi);
  }

  /** A write of non-empty bytes leaves them in the file at the write offset. */
  lemma WriteHoldsAt(data: seq<byte>, at: nat, b: seq<byte>)
    requires b != []
    ensures HoldsAt(Overwrite(data, at, b), at, b)
  {
  }

  /** Bytes held at p stay there when a write elsewhere does not touch them. */
  lemma OverwriteKeepsHeld(data: seq<byte>, at: nat, b: seq<byte>, p: nat, c: seq<byte>)
    requires HoldsAt(data, p, c)
    requires p + |c| <= at || at + |b| <= p
    ensures HoldsAt(Overwrite(data, at, b), p, c)
  {
    OverwriteKeepsSlice(data, at, b, p, |c|);
  }

  /** Writing a and then, right after it, b is writing a + b. */
  lemma OverwriteConsecutive(data: seq<byte>, at: nat, a: seq<byte>, b: seq<byte>)
    ensures Overwrite(Overwrite(data, at, a), at + |a|, b) == Overwrite(data, at, a + b)
  {
    var lhs := Overwrite(Overwrite(data, at, a), at + |a|, b);
    var rhs := Overwrite(data, at, a + b);
    var mid := Overwrite(data, at, a);
    assert |lhs| == |rhs|;
    forall i | 0 <= i < |lhs|
      ensures lhs[i] == rhs[i]
    {
      if at <= i < at + |a| {
        assert mid[at .. at + |a|][i - at] == a[i - at];
        assert rhs[at .. at + |a| + |b|][i - at] == (a + b)[i - at];
      } else if at + |a| <= i < at + |a| + |b| {
        assert lhs[at + |a| .. at + |a| + |b|][i - at - |a|] == b[i - at - |a|];
        assert rhs[at .. at + |a| + |b|][i - at] == (a + b)[i - at];
      }
    }
  }

  /** Apply f to each element in order, stopping at the first failure. */
  function MapResult<A, B>(f: A -> Result<B>, xs: seq<A>): Result<seq<B>>
    decreases |xs|
  {
    if xs == [] then Ok([])
    else
      var init :- MapResult(f, xs[..|xs| - 1]);
      var last :- f(xs[|xs| - 1]);
      Ok(init + [last])
  }

  /** MapResult succeeds exactly when f succeeds on every element, and then
      yields f's results in order. */
  lemma {:induction false} MapResultOk<A, B>(f: A -> Result<B>, xs: seq<A>)
    ensures MapResult(f, xs).Ok? <==> forall i :: 0 <= i < |xs| ==> f(xs[i]).Ok?
    ensures MapResult(f, xs).Ok? ==> (|MapResult(f, xs).value| == |xs| &&
      forall i :: 0 <= i < |xs| ==> MapResult(f, xs).value[i] == f(xs[i]).value)
    decreases |xs|
  {
    if xs != [] {
      var init := xs[..|xs| - 1];
      MapResultOk(f, init);
      assert forall i :: 0 <= i < |init| ==> init[i] == xs[i];
    }
  }

  /** MapResult fails with the error of the first element f fails on. */
  lemma {:induction false} MapResultFirstErr<A, B>(f: A -> Result<B>, xs: seq<A>, i: nat)
    requires i < |xs| && f(xs[i]).Err?
    requires forall j :: 0 <= j < i ==> f(xs[j]).Ok?
    ensures MapResult(f, xs) == Err(f(xs[i]).error)
    decreases |xs|
  {
    var init := xs[..|xs| - 1];
    if i < |xs| - 1 {
      assert init[i] == xs[i];
      assert forall j :: 0 <= j < i ==> init[j] == xs[j];
      MapResultFirstErr(f, init, i);
    } else {
      assert forall j :: 0 <= j < |init| ==> init[j] == xs[j];
      MapResultOk(f, init);
    }
  }

  /** A failure on a prefix is the failure of the whole sequence. */
  lemma {:induction false} MapResultPrefixErr<A, B>(f: A -> Result<B>, xs: seq<A>, n: nat)
    requires n <= |xs| && MapResult(f, xs[..n]).Err?
    ensures MapResult(f, xs) == MapResult(f, xs[..n])
    decreases |xs|
  {
    if n < |xs| {
      var init := xs[..|xs| - 1];
      assert init[..n] == xs[..n];
      MapResultPrefixErr(f, init, n);
    } else {
      assert xs[..n] == xs;
    }
  }

  /**
   * A file-like object open for writing in binary mode: its contents and
   * its current position. `Seek` and `Write` are fh.seek and fh.write.
   */
  class OutputFile {
    var data: seq<byte>
    var pos: nat

    constructor (initial: seq<byte>)
      ensures data == initial && pos == 0
    {
      data := initial;
      pos := 0;
    }

    method Seek(p: nat)
      modifies this
      ensures data == old(data) && pos == p
    {
      pos := p;
    }

    method Write(b: seq<byte>)
      modifies this
      ensures data == Overwrite(old(data), old(pos), b)
      ensures pos == old(pos) + |b|
    {
      data := Overwrite(data, pos, b);
      pos := pos + |b|;
    }
  }
}
