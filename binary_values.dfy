/**
 * Binary value I/O of segpy/toolkit.py: reading a block of homogeneous
 * scalars at a file offset and splitting it into fixed-width items, and
 * packing values back into bytes. The struct integer codes i/I/h/H/b/B are
 * written out as two's-complement or unsigned byte encodings in either byte
 * order; the float conversions (IBM <-> IEEE and IEEE single precision) are
 * opaque 4-byte functions supplied by the caller.
 */
module BinaryValues {
  import opened SegyBase
  import opened DataTypes

  /**
   * The float conversions the toolkit calls but whose code is not part of
   * this model: ibm2ieee / ieee2ibm, and struct's 'f' unpack / pack. A
   * packing function returns None where the Python code raises OverflowError.
   * ibm2ieee stands for the value as unpack_ibm_floats stores it, that is
   * the conversion already rounded to float32 by array('f').
   */
  datatype FloatCodecs = FloatCodecs(
    ibm2ieee: Bytes4 -> real,
    ieee2ibm: real -> Option<Bytes4>,
    unpackF32: Bytes4 -> real,
    packF32: real -> Option<Bytes4>)

  // ---------------------------------------------------------------------
  // Unsigned and two's-complement integer encodings
  // ---------------------------------------------------------------------

  function Pow256(w: nat): (r: nat)
    ensures r >= 1
  {
    if w == 0 then 1 else 256 * Pow256(w - 1)
  }

  /** Little-endian base-256 digits of v, w of them. */
  function EncodeLE(v: nat, w: nat): (r: seq<byte>)
    ensures |r| == w
  {
    if w == 0 then [] else [v % 256] + EncodeLE(v / 256, w - 1)
  }

  /** The unsigned number whose little-endian digits are bs. */
  function DecodeLE(bs: seq<byte>): (r: nat)
    ensures r < Pow256(|bs|)
  {
    if bs == [] then 0
    else
      var rest := DecodeLE(bs[1..]);
      assert rest <= Pow256(|bs| - 1) - 1;
      assert 256 * rest <= 256 * Pow256(|bs| - 1) - 256;
      bs[0] + 256 * rest
  }

  lemma {:induction false} DecodeEncodeLE(v: nat, w: nat)
    requires v < Pow256(w)
    ensures DecodeLE(EncodeLE(v, w)) == v
  {
    if w > 0 {
      assert v / 256 < Pow256(w - 1);
      DecodeEncodeLE(v / 256, w - 1);
      assert EncodeLE(v, w)[1..] == EncodeLE(v / 256, w - 1);
    }
  }

  lemma {:induction false} EncodeDecodeLE(bs: seq<byte>)
    ensures EncodeLE(DecodeLE(bs), |bs|) == bs
  {
    if bs != [] {
      EncodeDecodeLE(bs[1..]);
      var rest := DecodeLE(bs[1..]);
      assert (bs[0] + 256 * rest) % 256 == bs[0];
      assert (bs[0] + 256 * rest) / 256 == rest;
    }
  }

  function Reverse<T>(s: seq<T>): (r: seq<T>)
    ensures |r| == |s|
    ensures forall i :: 0 <= i < |s| ==> r[i] == s[|s| - 1 - i]
  {
    seq(|s|, i requires 0 <= i < |s| => s[|s| - 1 - i])
  }

  lemma ReverseReverse<T>(s: seq<T>)
    ensures Reverse(Reverse(s)) == s
  {
  }

  /** A struct integer format character: its width and signedness. */
  datatype IntFormat = IntFormat(width: nat, signed: bool)

  function IntFormatOf(ctype: string): (r: Option<IntFormat>)
    ensures r.Some? <==> ctype in {"i", "I", "h", "H", "b", "B"}
    ensures r.Some? ==> SizeInBytes(ctype) == Ok(r.value.width) && r.value.width > 0
  {
    match ctype
    case "i" => Some(IntFormat(4, true))
    case "I" => Some(IntFormat(4, false))
    case "h" => Some(IntFormat(2, true))
    case "H" => Some(IntFormat(2, false))
    case "b" => Some(IntFormat(1, true))
    case "B" => Some(IntFormat(1, false))
    case _ => None
  }

  /** The values struct.pack accepts for an integer format. */
  predicate InRange(v: int, f: IntFormat) {
    if f.signed then -(Pow256(f.width) / 2) <= v < Pow256(f.width) / 2
    else 0 <= v < Pow256(f.width)
  }

  /** struct's range of each integer format is exactly StructRange. */
  lemma InRangeIsStructRange(ctype: string, v: int)
    requires ctype in {"i", "I", "h", "H", "b", "B"}
    ensures InRange(v, IntFormatOf(ctype).value) <==>
      StructRange(ctype).min <= v <= StructRange(ctype).max
  {
    assert Pow256(1) == 256;
    assert Pow256(2) == 65536;
    assert Pow256(4) == 4294967296 by { assert Pow256(3) == 16777216; }
  }

  function ByteOrder(le: seq<byte>, endian: Endian): seq<byte> {
    if endian == Little then le else Reverse(le)
  }

  /** The w-byte encoding struct.pack produces for an in-range integer. */
  function EncodeInt(v: int, f: IntFormat, endian: Endian): (r: seq<byte>)
    requires InRange(v, f)
    ensures |r| == f.width
  {
    var u := if v < 0 then v + Pow256(f.width) else v;
    ByteOrder(EncodeLE(u, f.width), endian)
  }

  /** The integer struct.unpack reads from w bytes. */
  function DecodeInt(bs: seq<byte>, f: IntFormat, endian: Endian): (r: int)
    requires |bs| == f.width > 0
    ensures InRange(r, f)
  {
    var u := DecodeLE(ByteOrder(bs, endian));
    DecodedInRange(u, f);
    if f.signed && u >= Pow256(f.width) / 2 then u - Pow256(f.width) else u
  }

  /** Reading w digits as two's complement (or unsigned) lands in range. */
  lemma DecodedInRange(u: nat, f: IntFormat)
    requires f.width > 0 && u < Pow256(f.width)
    ensures InRange(if f.signed && u >= Pow256(f.width) / 2 then u - Pow256(f.width) else u, f)
  {
    Pow256Even(f.width);
  }

  lemma Pow256Even(w: nat)
    requires w > 0
    ensures Pow256(w) % 2 == 0
  {
  }

  lemma ByteOrderInvolutive(s: seq<byte>, endian: Endian)
    ensures ByteOrder(ByteOrder(s, endian), endian) == s
  {
    if endian == Big {
      ReverseReverse(s);
    }
  }

  /** Decoding the encoding of an in-range integer gives the integer back. */
  lemma DecodeEncodeInt(v: int, f: IntFormat, endian: Endian)
    requires f.width > 0 && InRange(v, f)
    ensures DecodeInt(EncodeInt(v, f, endian), f, endian) == v
  {
    var p := Pow256(f.width);
    var u := if v < 0 then v + p else v;
    var le := EncodeLE(u, f.width);
    assert EncodeInt(v, f, endian) == ByteOrder(le, endian);
    ByteOrderInvolutive(le, endian);
    DecodeEncodeLE(u, f.width);
    Pow256Even(f.width);
    SignedSplit(v, p, f.signed);
  }

  /** The two's-complement offset and the sign test of DecodeInt agree. */
  lemma SignedSplit(v: int, p: nat, signed: bool)
    requires p >= 2 && p % 2 == 0
    requires if signed then -(p / 2) <= v < p / 2 else 0 <= v < p
    ensures var u := if v < 0 then v + p else v;
      0 <= u < p && (if signed && u >= p / 2 then u - p else u) == v
  {
  }

  /** Encoding the integer decoded from w bytes gives the same bytes back. */
  lemma EncodeDecodeInt(bs: seq<byte>, f: IntFormat, endian: Endian)
    requires |bs| == f.width > 0
    ensures EncodeInt(DecodeInt(bs, f, endian), f, endian) == bs
  {
    var p := Pow256(f.width);
    Pow256Even(f.width);
    var le := ByteOrder(bs, endian);
    var u := DecodeLE(le);
    var d := DecodeInt(bs, f, endian);
    assert (if d < 0 then d + p else d) == u;
    EncodeDecodeLE(le);
    assert EncodeInt(d, f, endian) == ByteOrder(le, endian);
    ByteOrderInvolutive(bs, endian);
  }

  // ---------------------------------------------------------------------
  // unpack_values, unpack_ibm_floats, pack_values, pack_ibm_floats
  // ---------------------------------------------------------------------

  /** One item of a struct-unpacked buffer. */
  function UnpackItem(item: seq<byte>, ctype: string, endian: Endian, codecs: FloatCodecs): Value
    requires ctype == "f" || IntFormatOf(ctype).Some?
    requires |item| == SizeInBytes(ctype).value
  {
    if ctype == "f" then FloatValue(codecs.unpackF32(item))
    else IntValue(DecodeInt(item, IntFormatOf(ctype).value, endian))
  }

  /**
   * unpack_values: struct.unpack('{endian}{count}{fmt}', buf). struct
   * refuses a buffer whose length is not count times the item size, and any
   * format character other than the struct codes. The item_size argument of
   * the Python function is not used by it and is left out.
   */
  function UnpackValues(buf: seq<byte>, count: nat, ctype: string, endian: Endian, codecs: FloatCodecs)
    : (r: Result<seq<Value>>)
    ensures r.Ok? <==> (ctype == "f" || IntFormatOf(ctype).Some?) && |buf| == count * SizeInBytes(ctype).value
    ensures r.Err? ==> r.error == StructError
    ensures r.Ok? ==> |r.value| == count
    ensures r.Ok? ==> forall i :: 0 <= i < count ==>
      var w := SizeInBytes(ctype).value;
      w * i + w <= |buf| && r.value[i] == UnpackItem(buf[w * i .. w * i + w], ctype, endian, codecs)
  {
    if !(ctype == "f" || IntFormatOf(ctype).Some?) then Err(StructError)
    else
      var w := SizeInBytes(ctype).value;
      if |buf| != count * w then Err(StructError)
      else
        Ok(seq(count, i requires 0 <= i < count =>
          MulBound(w, i, count);
          UnpackItem(buf[w * i .. w * i + w], ctype, endian, codecs)))
  }

  lemma MulBound(w: nat, i: nat, count: nat)
    requires i < count
    ensures w * i + w <= w * count
  {
    assert w * (i + 1) <= w * count by { MulMonotone(w, i + 1, count); }
  }

  /** unpack_ibm_floats: item i is ibm2ieee of bytes [4i, 4i+4). */
  function UnpackIbmFloats(data: seq<byte>, count: nat, codecs: FloatCodecs): (r: seq<Value>)
    requires 4 * count <= |data|
    ensures |r| == count
    ensures forall i :: 0 <= i < count ==> r[i] == FloatValue(codecs.ibm2ieee(data[4 * i .. 4 * i + 4]))
  {
    seq(count, i requires 0 <= i < count => FloatValue(codecs.ibm2ieee(data[4 * i .. 4 * i + 4])))
  }

  /** The bytes struct.pack produces for one value, or the error it raises. */
  function PackItem(v: Value, ctype: string, endian: Endian, codecs: FloatCodecs): (r: Result<seq<byte>>)
    requires ctype == "f" || IntFormatOf(ctype).Some?
    ensures r.Ok? ==> |r.value| == SizeInBytes(ctype).value
    ensures r.Err? ==> r.error in {StructError, OverflowError}
  {
    if ctype == "f" then
      var x := match v case IntValue(i) => i as real case FloatValue(x) => x;
      match codecs.packF32(x)
      case Some(b) => Ok(b)
      case None => Err(OverflowError)
    else
      var f := IntFormatOf(ctype).value;
      match v
      case FloatValue(_) => Err(StructError)   // "required argument is not an integer"
      case IntValue(i) => if InRange(i, f) then Ok(EncodeInt(i, f, endian)) else Err(StructError)
  }

  /** pack_values: struct.pack('{endian}{len(values)}{fmt}', *values). */
  function PackValues(values: seq<Value>, ctype: string, endian: Endian, codecs: FloatCodecs)
    : (r: Result<seq<byte>>)
    ensures !(ctype == "f" || IntFormatOf(ctype).Some?) ==> r == Err(StructError)
    ensures r.Ok? ==> |r.value| == |values| * SizeInBytes(ctype).value
    ensures r.Ok? <==> (ctype == "f" || IntFormatOf(ctype).Some?) &&
                       forall i :: 0 <= i < |values| ==> PackItem(values[i], ctype, endian, codecs).Ok?
    ensures r.Err? ==> r.error in {StructError, OverflowError}
    decreases |values|
  {
    if !(ctype == "f" || IntFormatOf(ctype).Some?) then Err(StructError)
    else if values == [] then Ok([])
    else
      var first :- PackItem(values[0], ctype, endian, codecs);
      var rest :- PackValues(values[1..], ctype, endian, codecs);
      assert forall i :: 1 <= i < |values| ==> values[i] == values[1..][i - 1];
      Ok(first + rest)
  }

  /** pack_ibm_floats: the concatenated ieee2ibm encodings, in order. */
  function PackIbmFloats(values: seq<Value>, codecs: FloatCodecs): (r: Result<seq<byte>>)
    ensures r.Ok? ==> |r.value| == 4 * |values|
    ensures r.Ok? <==> forall i :: 0 <= i < |values| ==> codecs.ieee2ibm(AsReal(values[i])).Some?
    ensures r.Ok? ==> forall i :: 0 <= i < |values| ==>
      r.value[4 * i .. 4 * i + 4] == codecs.ieee2ibm(AsReal(values[i])).value
    ensures r.Err? ==> r.error == OverflowError
    decreases |values|
  {
    if values == [] then Ok([])
    else
      match codecs.ieee2ibm(AsReal(values[0]))
      case None => Err(OverflowError)
      case Some(b) =>
        var rest :- PackIbmFloats(values[1..], codecs);
        assert forall i :: 1 <= i < |values| ==> values[i] == values[1..][i - 1];
        assert forall i :: 1 <= i < |values| ==>
          (b + rest)[4 * i .. 4 * i + 4] == rest[4 * (i - 1) .. 4 * (i - 1) + 4];
        Ok(b + rest)
  }

  function AsReal(v: Value): real {
    match v
    case IntValue(i) => i as real
    case FloatValue(x) => x
  }

  // ---------------------------------------------------------------------
  // read_binary_values and the buffer write_binary_values produces
  // ---------------------------------------------------------------------

  /** fh.seek(pos); fh.read(n): at most n bytes from offset pos. */
  function ReadAt(file: seq<byte>, pos: nat, n: nat): (r: seq<byte>)
    ensures |r| <= n
    ensures pos + n <= |file| ==> r == file[pos .. pos + n]
    ensures pos + n > |file| && n > 0 ==> |r| < n
  {
    if pos >= |file| then []
    else if pos + n <= |file| then file[pos .. pos + n]
    else file[pos..]
  }

  /** CTYPES[seg_y_type] (see README) and the size of that ctype. */
  function ItemSize(segYType: string): (r: Result<nat>)
    ensures r.Ok? <==> segYType in SEG_Y_TYPE_TO_CTYPE
    ensures r.Err? ==> r.error == KeyError
    ensures r.Ok? ==> r == SizeInBytes(SEG_Y_TYPE_TO_CTYPE[segYType]) && r.value > 0
  {
    SampleFormatSizes();
    if segYType in SEG_Y_TYPE_TO_CTYPE then SizeInBytes(SEG_Y_TYPE_TO_CTYPE[segYType])
    else Err(KeyError)
  }

  /**
   * read_binary_values: read size * count bytes at pos; a short read raises
   * EOFError; ibm items are decoded 4 bytes at a time by ibm2ieee, the
   * others by struct.unpack in the given byte order.
   */
  function ReadBinaryValues(file: seq<byte>, pos: nat, segYType: string, count: nat, endian: Endian,
                            codecs: FloatCodecs): (r: Result<seq<Value>>)
    ensures segYType !in SEG_Y_TYPE_TO_CTYPE ==> r == Err(KeyError)
    ensures segYType in SEG_Y_TYPE_TO_CTYPE ==>
      (r == Err(EOFError) <==> count > 0 && pos + ItemSize(segYType).value * count > |file|)
    ensures r.Ok? <==> segYType in SEG_Y_TYPE_TO_CTYPE && (count == 0 || pos + ItemSize(segYType).value * count <= |file|)
    ensures r.Ok? ==> |r.value| == count
    ensures r.Ok? && SEG_Y_TYPE_TO_CTYPE[segYType] == "ibm" ==> forall i :: 0 <= i < count ==>
      r.value[i] == FloatValue(codecs.ibm2ieee(file[pos + 4 * i .. pos + 4 * i + 4]))
  {
    var itemSize :- ItemSize(segYType);
    var ctype := SEG_Y_TYPE_TO_CTYPE[segYType];
    var blockSize := itemSize * count;
    var buf := ReadAt(file, pos, blockSize);
    if |buf| < blockSize then Err(EOFError)
    else if ctype == "ibm" then
      assert itemSize == 4;
      assert count > 0 ==> buf == file[pos .. pos + 4 * count];
      forall i | 0 <= i < count
        ensures buf[4 * i .. 4 * i + 4] == file[pos + 4 * i .. pos + 4 * i + 4]
      {
        MulBound(4, i, count);
        SliceOfSlice(file, pos, pos + 4 * count, 4 * i, 4 * i + 4);
      }
      Ok(UnpackIbmFloats(buf, count, codecs))
    else
      UnpackValues(buf, count, ctype, endian, codecs)
  }

  /**
   * The buffer write_binary_values writes: CTYPES lookup, then
   * pack_ibm_floats or pack_values. write_binary_values does not pass an
   * endian, so pack_values uses its default '>' and writes are big-endian.
   */
  function EncodeBinaryValues(values: seq<Value>, segYType: string, codecs: FloatCodecs)
    : (r: Result<seq<byte>>)
    ensures segYType !in SEG_Y_TYPE_TO_CTYPE ==> r == Err(KeyError)
    ensures r.Ok? ==> |r.value| == |values| * ItemSize(segYType).value
    ensures segYType in SEG_Y_TYPE_TO_CTYPE && r.Err? ==> r.error in {StructError, OverflowError}
  {
    if segYType !in SEG_Y_TYPE_TO_CTYPE then Err(KeyError)
    else
      var ctype := SEG_Y_TYPE_TO_CTYPE[segYType];
      if ctype == "ibm" then PackIbmFloats(values, codecs)
      else PackValues(values, ctype, Big, codecs)
  }

  /** write_binary_values: seek to pos if given, then write the packed values.
      A failed lookup raises before the seek; a failed pack after it. */
  method WriteBinaryValues(fh: OutputFile, values: seq<Value>, segYType: string, pos: Option<nat>,
                           codecs: FloatCodecs) returns (r: Result<()>)
    modifies fh
    ensures r.Ok? <==> EncodeBinaryValues(values, segYType, codecs).Ok?
    ensures r.Err? ==> r.error == EncodeBinaryValues(values, segYType, codecs).error
    ensures r.Err? ==> fh.data == old(fh.data)
    ensures r == Err(KeyError) ==> fh.pos == old(fh.pos)
    ensures r.Ok? || r.error != KeyError ==> fh.pos == (if pos.Some? then pos.value else old(fh.pos)) + (if r.Ok? then |EncodeBinaryValues(values, segYType, codecs).value| else 0)
    ensures r.Ok? ==>
      var at := if pos.Some? then pos.value else old(fh.pos);
      fh.data == Overwrite(old(fh.data), at, EncodeBinaryValues(values, segYType, codecs).value)
  {
    if segYType !in SEG_Y_TYPE_TO_CTYPE {
      return Err(KeyError);
    }
    if pos.Some? {
      fh.Seek(pos.value);
    }
    var buf := EncodeBinaryValues(values, segYType, codecs);
    if buf.Err? {
      return Err(buf.error);
    }
    fh.Write(buf.value);
    r := Ok(());
  }

  // ---------------------------------------------------------------------
  // Round trip
  // ---------------------------------------------------------------------

  /** A value pack_values accepts for an integer SEG-Y type. */
  predicate PackableInt(v: Value, segYType: string) {
    && segYType in SEG_Y_TYPE_TO_CTYPE
    && IntFormatOf(SEG_Y_TYPE_TO_CTYPE[segYType]).Some?
    && v.IntValue?
    && InRange(v.i, IntFormatOf(SEG_Y_TYPE_TO_CTYPE[segYType]).value)
  }

  /**
   * Writing integer values of a SEG-Y integer type and reading them back,
   * big-endian, at the same offset gives the same values.
   */
  lemma WriteReadRoundTrip(file: seq<byte>, pos: nat, values: seq<Value>, segYType: string,
                           codecs: FloatCodecs)
    requires forall i :: 0 <= i < |values| ==> PackableInt(values[i], segYType)
    requires segYType in SEG_Y_TYPE_TO_CTYPE && IntFormatOf(SEG_Y_TYPE_TO_CTYPE[segYType]).Some?
    ensures EncodeBinaryValues(values, segYType, codecs).Ok?
    ensures ReadBinaryValues(Overwrite(file, pos, EncodeBinaryValues(values, segYType, codecs).value),
                             pos, segYType, |values|, Big, codecs) == Ok(values)
  {
    var ctype := SEG_Y_TYPE_TO_CTYPE[segYType];
    PackIntValues(values, ctype, codecs);
    if values != [] {
      var buf := EncodeBinaryValues(values, segYType, codecs).value;
      WriteHoldsAt(file, pos, buf);
      ReadSeesBlock(Overwrite(file, pos, buf), pos, buf, segYType, |values|, Big, codecs);
      UnpackPackInts(values, ctype, codecs);
    }
  }

  /** A read of count items at pos sees exactly the block of the file there. */
  lemma ReadSeesBlock(file: seq<byte>, pos: nat, buf: seq<byte>, segYType: string, count: nat,
                      endian: Endian, codecs: FloatCodecs)
    requires segYType in SEG_Y_TYPE_TO_CTYPE && SEG_Y_TYPE_TO_CTYPE[segYType] != "ibm"
    requires |buf| == count * ItemSize(segYType).value
    requires HoldsAt(file, pos, buf)
    ensures ReadBinaryValues(file, pos, segYType, count, endian, codecs) ==
            UnpackValues(buf, count, SEG_Y_TYPE_TO_CTYPE[segYType], endian, codecs)
  {
    assert ReadAt(file, pos, |buf|) == buf;
    assert ItemSize(segYType).value * count == |buf|;
  }

  /** Unpacking the big-endian pack of in-range integers gives them back. */
  lemma UnpackPackInts(values: seq<Value>, ctype: string, codecs: FloatCodecs)
    requires IntFormatOf(ctype).Some?
    requires forall i :: 0 <= i < |values| ==> values[i].IntValue? && InRange(values[i].i, IntFormatOf(ctype).value)
    ensures PackValues(values, ctype, Big, codecs).Ok?
    ensures UnpackValues(PackValues(values, ctype, Big, codecs).value, |values|, ctype, Big, codecs) == Ok(values)
  {
    PackIntValues(values, ctype, codecs);
    var f := IntFormatOf(ctype).value;
    var w := f.width;
    var buf := PackValues(values, ctype, Big, codecs).value;
    var r := UnpackValues(buf, |values|, ctype, Big, codecs);
    assert r.Ok?;
    forall i | 0 <= i < |values|
      ensures r.value[i] == values[i]
    {
      PackIntValuesPart(values, ctype, codecs, i);
      DecodeEncodeInt(values[i].i, f, Big);
    }
    assert r.value == values;
  }

  lemma {:induction false} PackIntValues(values: seq<Value>, ctype: string, codecs: FloatCodecs)
    requires IntFormatOf(ctype).Some?
    requires forall i :: 0 <= i < |values| ==> values[i].IntValue? && InRange(values[i].i, IntFormatOf(ctype).value)
    ensures PackValues(values, ctype, Big, codecs).Ok?
  {
  }

  /** The big-endian encodings of a sequence of in-range integers, one per value. */
  function IntEncodings(values: seq<Value>, f: IntFormat): (r: seq<seq<byte>>)
    requires forall j :: 0 <= j < |values| ==> values[j].IntValue? && InRange(values[j].i, f)
    ensures |r| == |values|
    ensures forall j :: 0 <= j < |values| ==> r[j] == EncodeInt(values[j].i, f, Big) && |r[j]| == f.width
    decreases |values|
  {
    if values == [] then [] else [EncodeInt(values[0].i, f, Big)] + IntEncodings(values[1..], f)
  }

  /** An integer pack is the concatenation of the values' encodings. */
  lemma {:induction false} PackIntValuesFlat(values: seq<Value>, ctype: string, codecs: FloatCodecs)
    requires IntFormatOf(ctype).Some?
    requires forall j :: 0 <= j < |values| ==> values[j].IntValue? && InRange(values[j].i, IntFormatOf(ctype).value)
    ensures PackValues(values, ctype, Big, codecs) == Ok(Flatten(IntEncodings(values, IntFormatOf(ctype).value)))
    decreases |values|
  {
    var f := IntFormatOf(ctype).value;
    if values != [] {
      assert PackItem(values[0], ctype, Big, codecs) == Ok(EncodeInt(values[0].i, f, Big));
      PackIntValuesFlat(values[1..], ctype, codecs);
      assert IntEncodings(values, f)[1..] == IntEncodings(values[1..], f);
    }
  }

  /** Item i of an integer pack is the encoding of value i. */
  lemma PackIntValuesPart(values: seq<Value>, ctype: string, codecs: FloatCodecs, i: nat)
    requires IntFormatOf(ctype).Some?
    requires forall j :: 0 <= j < |values| ==> values[j].IntValue? && InRange(values[j].i, IntFormatOf(ctype).value)
    requires i < |values|
    ensures PackValues(values, ctype, Big, codecs).Ok?
    ensures var w := IntFormatOf(ctype).value.width;
      w * i + w <= |PackValues(values, ctype, Big, codecs).value| &&
      PackValues(values, ctype, Big, codecs).value[w * i .. w * i + w] ==
        EncodeInt(values[i].i, IntFormatOf(ctype).value, Big)
  {
    var f := IntFormatOf(ctype).value;
    PackIntValuesFlat(values, ctype, codecs);
    FlattenUniformPart(IntEncodings(values, f), f.width, i);
  }

}
