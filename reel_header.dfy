/**
 * The binary reel header of segpy/toolkit.py: reading it field by field
 * from the file, writing it back field by field, and the trace length the
 * header implies. HEADER_DEF (the table of fields) is not part of this
 * model: it is a parameter, a sequence of field definitions in the order
 * the dictionary iterates them.
 */
module ReelHeader {
  import opened SegyBase
  import opened DataTypes
  import opened BinaryValues

  /** One entry of HEADER_DEF: name, absolute file offset, SEG-Y type, default. */
  datatype FieldDef = FieldDef(name: string, pos: nat, segYType: string, default: Value)

  /** The keys of a dictionary are distinct. */
  predicate DistinctNames(defs: seq<FieldDef>) {
    forall j, k :: 0 <= j < k < |defs| ==> defs[j].name != defs[k].name
  }

  /** The number of bytes a field occupies (0 for an unknown type). */
  function Width(d: FieldDef): nat {
    if d.segYType in SEG_Y_TYPE_TO_CTYPE then ItemSize(d.segYType).value else 0
  }

  /** The field names, as the set of keys of the dictionary they index. */
  function Names(defs: seq<FieldDef>): (r: set<string>)
    ensures forall k :: 0 <= k < |defs| ==> defs[k].name in r
    ensures forall n :: n in r ==> exists k :: 0 <= k < |defs| && defs[k].name == n
    decreases |defs|
  {
    if defs == [] then {} else Names(defs[..|defs| - 1]) + {defs[|defs| - 1].name}
  }

  /** No two fields share a byte. */
  predicate Disjoint(defs: seq<FieldDef>) {
    forall j, k :: 0 <= j < |defs| && 0 <= k < |defs| && j != k ==>
      defs[j].pos + Width(defs[j]) <= defs[k].pos || defs[k].pos + Width(defs[k]) <= defs[j].pos
  }

  // ---------------------------------------------------------------------
  // read_binary_reel_header
  // ---------------------------------------------------------------------

  /** read_binary_values(fh, pos, ctype, 1, endian)[0] for field d. */
  function ReadValue(file: seq<byte>, endian: Endian, codecs: FloatCodecs, d: FieldDef): (r: Result<Value>)
    ensures r.Err? <==> ReadBinaryValues(file, d.pos, d.segYType, 1, endian, codecs).Err?
    ensures r.Err? ==> r.error == ReadBinaryValues(file, d.pos, d.segYType, 1, endian, codecs).error
    ensures r.Ok? ==> ReadBinaryValues(file, d.pos, d.segYType, 1, endian, codecs) == Ok([r.value])
  {
    var values :- ReadBinaryValues(file, d.pos, d.segYType, 1, endian, codecs);
    assert values == [values[0]];
    Ok(values[0])
  }

  /** The per-field read of read_binary_reel_header. */
  function ReelReader(file: seq<byte>, endian: Endian, codecs: FloatCodecs): FieldDef -> Result<Value> {
    d => ReadValue(file, endian, codecs, d)
  }

  /** The dictionary read_binary_reel_header builds from the fields, reading
      each with `read`, or the error of the first field that cannot be read. */
  function ReadFields(read: FieldDef -> Result<Value>, defs: seq<FieldDef>): Result<map<string, Value>>
    decreases |defs|
  {
    if defs == [] then Ok(map[])
    else
      var header :- ReadFields(read, defs[..|defs| - 1]);
      var value :- read(defs[|defs| - 1]);
      Ok(header[defs[|defs| - 1].name := value])
  }

  /** The header is read exactly when every field can be read. */
  lemma {:induction false} ReadFieldsOk(read: FieldDef -> Result<Value>, defs: seq<FieldDef>)
    ensures ReadFields(read, defs).Ok? <==> forall k :: 0 <= k < |defs| ==> read(defs[k]).Ok?
    decreases |defs|
  {
    if defs != [] {
      var init := defs[..|defs| - 1];
      assert forall k :: 0 <= k < |init| ==> init[k] == defs[k];
      ReadFieldsOk(read, init);
    }
  }

  /** A header that is read has the field names as its keys. */
  lemma {:induction false} ReadFieldsKeys(read: FieldDef -> Result<Value>, defs: seq<FieldDef>)
    requires ReadFields(read, defs).Ok?
    ensures ReadFields(read, defs).value.Keys == Names(defs)
    decreases |defs|
  {
    if defs != [] {
      var init := defs[..|defs| - 1];
      ReadFieldsKeys(read, init);
    }
  }

  /** In a header that is read, each field name maps to the value read for
      that field (the names being distinct). */
  lemma {:induction false} ReadFieldsValues(read: FieldDef -> Result<Value>, defs: seq<FieldDef>)
    requires DistinctNames(defs)
    requires ReadFields(read, defs).Ok?
    ensures forall k :: 0 <= k < |defs| ==>
      read(defs[k]).Ok? && defs[k].name in ReadFields(read, defs).value &&
      ReadFields(read, defs).value[defs[k].name] == read(defs[k]).value
    decreases |defs|
  {
    if defs != [] {
      var init := defs[..|defs| - 1];
      var d := defs[|defs| - 1];
      assert forall k :: 0 <= k < |init| ==> init[k] == defs[k];
      ReadFieldsValues(read, init);
      var header := ReadFields(read, init).value;
      var r := ReadFields(read, defs).value;
      assert r == header[d.name := read(d).value];
      forall k | 0 <= k < |defs|
        ensures read(defs[k]).Ok? && defs[k].name in r && r[defs[k].name] == read(defs[k]).value
      {
        if k < |init| {
          var dk := init[k];
          assert dk == defs[k] && dk.name != d.name;
          assert read(dk).Ok? && dk.name in header && header[dk.name] == read(dk).value;
          assert r[dk.name] == header[dk.name];
        }
      }
    }
  }

  /** A header that cannot be read fails with the error of the first field
      that cannot be read. */
  lemma {:induction false} ReadFieldsErr(read: FieldDef -> Result<Value>, defs: seq<FieldDef>)
    requires ReadFields(read, defs).Err?
    ensures exists m :: (0 <= m < |defs| && read(defs[m]).Err? &&
      ReadFields(read, defs).error == read(defs[m]).error &&
      forall k :: 0 <= k < m ==> read(defs[k]).Ok?)
    decreases |defs|
  {
    var init := defs[..|defs| - 1];
    assert forall k :: 0 <= k < |init| ==> init[k] == defs[k];
    if ReadFields(read, init).Err? {
      ReadFieldsErr(read, init);
      var m :| 0 <= m < |init| && read(init[m]).Err? && ReadFields(read, init).error == read(init[m]).error &&
               forall k :: 0 <= k < m ==> read(init[k]).Ok?;
      assert defs[m] == init[m];
    } else {
      ReadFieldsOk(read, init);
      assert read(defs[|defs| - 1]).Err?;
    }
  }

  /** Once a prefix of the fields fails, reading all of them fails the same way. */
  lemma {:induction false} ReadFieldsPrefixErr(read: FieldDef -> Result<Value>, defs: seq<FieldDef>, n: nat)
    requires n <= |defs|
    requires ReadFields(read, defs[..n]).Err?
    ensures ReadFields(read, defs) == ReadFields(read, defs[..n])
    decreases |defs| - n
  {
    if n < |defs| {
      assert defs[..n + 1][..n] == defs[..n];
      ReadFieldsPrefixErr(read, defs, n + 1);
    } else {
      assert defs[..n] == defs;
    }
  }

  /** ReadFields over one more field, after a prefix that was read. */
  lemma ReadFieldsStep(read: FieldDef -> Result<Value>, defs: seq<FieldDef>, i: nat)
    requires i < |defs| && ReadFields(read, defs[..i]).Ok?
    ensures read(defs[i]).Err? ==> ReadFields(read, defs[..i + 1]) == Err(read(defs[i]).error)
    ensures read(defs[i]).Ok? ==> (ReadFields(read, defs[..i + 1]) ==
      Ok(ReadFields(read, defs[..i]).value[defs[i].name := read(defs[i]).value]))
  {
    assert defs[..i + 1][..i] == defs[..i];
  }

  /** One iteration of read_binary_reel_header's loop, against ReadFields:
      a failed read is the failure of the whole header, a successful one
      extends the dictionary read so far. */
  lemma ReadLoopStep(file: seq<byte>, endian: Endian, codecs: FloatCodecs, defs: seq<FieldDef>,
                     i: nat, header: map<string, Value>)
    requires i < |defs| && ReadFields(ReelReader(file, endian, codecs), defs[..i]) == Ok(header)
    ensures var values := ReadBinaryValues(file, defs[i].pos, defs[i].segYType, 1, endian, codecs);
      (values.Err? ==> ReadFields(ReelReader(file, endian, codecs), defs) == Err(values.error)) &&
      (values.Ok? ==> (|values.value| == 1 && ReadFields(ReelReader(file, endian, codecs), defs[..i + 1]) ==
        Ok(header[defs[i].name := values.value[0]])))
  {
    var read := ReelReader(file, endian, codecs);
    assert read(defs[i]) == ReadValue(file, endian, codecs, defs[i]);
    ReadFieldsStep(read, defs, i);
    if read(defs[i]).Err? {
      ReadFieldsPrefixErr(read, defs, i + 1);
    }
  }

  /** read_binary_reel_header: one read_binary_values(fh, pos, ctype, 1, endian)
      per field, in definition order, into a dictionary. */
  method ReadBinaryReelHeader(file: seq<byte>, defs: seq<FieldDef>, endian: Endian, codecs: FloatCodecs)
    returns (r: Result<map<string, Value>>)
    ensures r == ReadFields(ReelReader(file, endian, codecs), defs)
  {
    var read := ReelReader(file, endian, codecs);
    var header: map<string, Value> := map[];
    var i := 0;
    while i < |defs|
      invariant 0 <= i <= |defs|
      invariant ReadFields(read, defs[..i]) == Ok(header)
    {
      var d := defs[i];
      var values := ReadBinaryValues(file, d.pos, d.segYType, 1, endian, codecs);
      ReadLoopStep(file, endian, codecs, defs, i, header);
      if values.Err? {
        return Err(values.error);
      }
      header := header[d.name := values.value[0]];
      i := i + 1;
    }
    assert defs[..|defs|] == defs;
    return Ok(header);
  }

  // ---------------------------------------------------------------------
  // write_binary_reel_header
  // ---------------------------------------------------------------------

  /** The value of a SegyBase.OutputFile (its data and cursor), so that the
      header-writing fold can be stated as a function over file states. */
  datatype FileImage = FileImage(data: seq<byte>, pos: nat)

  /** header[key] if the caller supplied it, else the field's default. */
  function ValueOrDefault(header: map<string, Value>, d: FieldDef): Value {
    if d.name in header then header[d.name] else d.default
  }

  /** The bytes write_binary_values produces for field d of the header. */
  function FieldBytes(header: map<string, Value>, d: FieldDef, codecs: FloatCodecs): Result<seq<byte>> {
    EncodeBinaryValues([ValueOrDefault(header, d)], d.segYType, codecs)
  }

  /** write_binary_values(fh, [value], ctype, pos) for one field: a lookup
      failure raises before the seek, a pack failure after it. */
  function WriteField(header: map<string, Value>, codecs: FloatCodecs, img: FileImage, d: FieldDef)
    : (FileImage, Option<Error>)
  {
    if d.segYType !in SEG_Y_TYPE_TO_CTYPE then (img, Some(KeyError))
    else
      match FieldBytes(header, d, codecs)
      case Err(e) => (FileImage(img.data, d.pos), Some(e))
      case Ok(buf) => (FileImage(Overwrite(img.data, d.pos, buf), d.pos + |buf|), None)
  }

  /** The per-field write of write_binary_reel_header. */
  function ReelWriter(header: map<string, Value>, codecs: FloatCodecs): (FileImage, FieldDef) -> (FileImage, Option<Error>) {
    (img, d) => WriteField(header, codecs, img, d)
  }

  /** The file after applying `write` to the fields in order up to the first
      failure, and that failure if any. */
  function WriteFields(write: (FileImage, FieldDef) -> (FileImage, Option<Error>), img: FileImage,
                       defs: seq<FieldDef>): (FileImage, Option<Error>)
    decreases |defs|
  {
    if defs == [] then (img, None)
    else
      var prev := WriteFields(write, img, defs[..|defs| - 1]);
      if prev.1.Some? then prev
      else write(prev.0, defs[|defs| - 1])
  }

  /** WriteFields over one more field: one more write unless already failed. */
  lemma WriteFieldsStep(write: (FileImage, FieldDef) -> (FileImage, Option<Error>), img: FileImage,
                        defs: seq<FieldDef>, i: nat)
    requires i < |defs|
    ensures var prev := WriteFields(write, img, defs[..i]);
      WriteFields(write, img, defs[..i + 1]) == if prev.1.Some? then prev else write(prev.0, defs[i])
  {
    assert defs[..i + 1][..i] == defs[..i];
  }

  lemma {:induction false} WriteFieldsPrefixErr(write: (FileImage, FieldDef) -> (FileImage, Option<Error>),
                                                img: FileImage, defs: seq<FieldDef>, n: nat)
    requires n <= |defs|
    requires WriteFields(write, img, defs[..n]).1.Some?
    ensures WriteFields(write, img, defs) == WriteFields(write, img, defs[..n])
    decreases |defs| - n
  {
    if n < |defs| {
      assert defs[..n + 1][..n] == defs[..n];
      WriteFieldsPrefixErr(write, img, defs, n + 1);
    } else {
      assert defs[..n] == defs;
    }
  }

  /** One iteration of write_binary_reel_header's loop, against WriteFields:
      a failed write ends the header with that failure, a successful one
      extends the fields written so far. */
  lemma WriteLoopStep(write: (FileImage, FieldDef) -> (FileImage, Option<Error>), start: FileImage,
                      defs: seq<FieldDef>, i: nat, img: FileImage, after: FileImage, err: Option<Error>)
    requires i < |defs| && WriteFields(write, start, defs[..i]) == (img, None)
    requires write(img, defs[i]) == (after, err)
    ensures err.Some? ==> WriteFields(write, start, defs) == (after, err)
    ensures err.None? ==> WriteFields(write, start, defs[..i + 1]) == (after, None)
  {
    WriteFieldsStep(write, start, defs, i);
    if err.Some? {
      WriteFieldsPrefixErr(write, start, defs, i + 1);
    }
  }

  /** One iteration of write_binary_reel_header's loop. */
  method WriteOneField(fh: OutputFile, header: map<string, Value>, d: FieldDef, codecs: FloatCodecs)
    returns (err: Option<Error>)
    modifies fh
    ensures (FileImage(fh.data, fh.pos), err) == WriteField(header, codecs, FileImage(old(fh.data), old(fh.pos)), d)
  {
    var value := if d.name in header then header[d.name] else d.default;
    var w := WriteBinaryValues(fh, [value], d.segYType, Some(d.pos), codecs);
    err := if w.Err? then Some(w.error) else None;
  }

  /** write_binary_reel_header: each field's value (or its default) is
      written at the field's offset, in definition order; an error stops the
      loop with the earlier fields already written. */
  method WriteBinaryReelHeader(fh: OutputFile, header: map<string, Value>, defs: seq<FieldDef>, codecs: FloatCodecs)
    returns (r: Result<()>)
    modifies fh
    ensures WriteFields(ReelWriter(header, codecs), FileImage(old(fh.data), old(fh.pos)), defs) ==
            (FileImage(fh.data, fh.pos), if r.Ok? then None else Some(r.error))
  {
    var write := ReelWriter(header, codecs);
    ghost var start := FileImage(fh.data, fh.pos);
    var i := 0;
    while i < |defs|
      invariant 0 <= i <= |defs|
      invariant WriteFields(write, start, defs[..i]) == (FileImage(fh.data, fh.pos), None)
    {
      ghost var img := FileImage(fh.data, fh.pos);
      var err := WriteOneField(fh, header, defs[i], codecs);
      WriteLoopStep(write, start, defs, i, img, FileImage(fh.data, fh.pos), err);
      if err.Some? {
        return Err(err.value);
      }
      i := i + 1;
    }
    assert defs[..|defs|] == defs;
    return Ok(());
  }

  // ---------------------------------------------------------------------
  // Round trip of the reel header
  // ---------------------------------------------------------------------

  /** Writing one packable integer field overwrites exactly its Width bytes. */
  lemma WriteIntField(header: map<string, Value>, codecs: FloatCodecs, img: FileImage, d: FieldDef)
    requires PackableInt(ValueOrDefault(header, d), d.segYType)
    ensures FieldBytes(header, d, codecs).Ok? && |FieldBytes(header, d, codecs).value| == Width(d)
    ensures WriteField(header, codecs, img, d) ==
      (FileImage(Overwrite(img.data, d.pos, FieldBytes(header, d, codecs).value), d.pos + Width(d)), None)
  {
    PackIntValues([ValueOrDefault(header, d)], SEG_Y_TYPE_TO_CTYPE[d.segYType], codecs);
  }

  /** The per-field write that puts bytesOf(d) at d's offset and never fails. */
  function Placer(bytesOf: FieldDef -> seq<byte>): (FileImage, FieldDef) -> (FileImage, Option<Error>) {
    (i: FileImage, d: FieldDef) => (FileImage(Overwrite(i.data, d.pos, bytesOf(d)), d.pos + |bytesOf(d)|), None)
  }

  /** Placing fixed bytes at the offsets of fields whose byte ranges are
      disjoint leaves every field's bytes in place: later writes do not
      disturb earlier ones. */
  lemma {:induction false} PlacedStayInPlace(bytesOf: FieldDef -> seq<byte>, img: FileImage, defs: seq<FieldDef>)
    requires forall k :: 0 <= k < |defs| ==> |bytesOf(defs[k])| > 0
    requires forall j, k :: 0 <= j < |defs| && 0 <= k < |defs| && j != k ==>
      defs[j].pos + |bytesOf(defs[j])| <= defs[k].pos || defs[k].pos + |bytesOf(defs[k])| <= defs[j].pos
    ensures WriteFields(Placer(bytesOf), img, defs).1.None?
    ensures forall k :: 0 <= k < |defs| ==>
      HoldsAt(WriteFields(Placer(bytesOf), img, defs).0.data, defs[k].pos, bytesOf(defs[k]))
    decreases |defs|
  {
    if defs != [] {
      var write := Placer(bytesOf);
      var init := defs[..|defs| - 1];
      var d := defs[|defs| - 1];
      assert forall k :: 0 <= k < |init| ==> init[k] == defs[k];
      PlacedStayInPlace(bytesOf, img, init);
      var before := WriteFields(write, img, init).0.data;
      var buf := bytesOf(d);
      var out := Overwrite(before, d.pos, buf);
      assert WriteFields(write, img, defs).0.data == out;
      forall k | 0 <= k < |defs|
        ensures HoldsAt(out, defs[k].pos, bytesOf(defs[k]))
      {
        if k < |init| {
          assert init[k] == defs[k];
          OverwriteKeepsHeld(before, d.pos, buf, defs[k].pos, bytesOf(defs[k]));
        } else {
          WriteHoldsAt(before, d.pos, buf);
        }
      }
    }
  }

  /** Two per-field writes that agree on every field give the same result. */
  lemma {:induction false} WriteFieldsAgree(w1: (FileImage, FieldDef) -> (FileImage, Option<Error>),
                                            w2: (FileImage, FieldDef) -> (FileImage, Option<Error>),
                                            img: FileImage, defs: seq<FieldDef>)
    requires forall i: FileImage, k :: 0 <= k < |defs| ==> w1(i, defs[k]) == w2(i, defs[k])
    ensures WriteFields(w1, img, defs) == WriteFields(w2, img, defs)
    decreases |defs|
  {
    if defs != [] {
      var init := defs[..|defs| - 1];
      forall i: FileImage, k | 0 <= k < |init|
        ensures w1(i, init[k]) == w2(i, init[k])
      {
        assert init[k] == defs[k];
      }
      WriteFieldsAgree(w1, w2, img, init);
    }
  }

  /** The bytes of a field that packs. */
  function PackedBytes(header: map<string, Value>, codecs: FloatCodecs): FieldDef -> seq<byte> {
    d => if FieldBytes(header, d, codecs).Ok? then FieldBytes(header, d, codecs).value else []
  }

  /** After writing integer fields that all pack and occupy disjoint bytes,
      each field's packed bytes sit at its offset. */
  lemma WrittenFieldsInPlace(img: FileImage, header: map<string, Value>, defs: seq<FieldDef>, codecs: FloatCodecs)
    requires forall k :: 0 <= k < |defs| ==> PackableInt(ValueOrDefault(header, defs[k]), defs[k].segYType)
    requires Disjoint(defs)
    ensures WriteFields(ReelWriter(header, codecs), img, defs).1.None?
    ensures forall k :: 0 <= k < |defs| ==>
      FieldBytes(header, defs[k], codecs).Ok? && |FieldBytes(header, defs[k], codecs).value| == Width(defs[k]) &&
      HoldsAt(WriteFields(ReelWriter(header, codecs), img, defs).0.data, defs[k].pos,
              FieldBytes(header, defs[k], codecs).value)
  {
    var bytesOf := PackedBytes(header, codecs);
    forall i: FileImage, k | 0 <= k < |defs|
      ensures ReelWriter(header, codecs)(i, defs[k]) == Placer(bytesOf)(i, defs[k])
    {
      WriteIntField(header, codecs, i, defs[k]);
    }
    forall k | 0 <= k < |defs|
      ensures FieldBytes(header, defs[k], codecs).Ok? && bytesOf(defs[k]) == FieldBytes(header, defs[k], codecs).value
      ensures |bytesOf(defs[k])| == Width(defs[k]) > 0
    {
      WriteIntField(header, codecs, img, defs[k]);
    }
    WriteFieldsAgree(ReelWriter(header, codecs), Placer(bytesOf), img, defs);
    PlacedStayInPlace(bytesOf, img, defs);
  }

  /**
   * Writing a header of integer fields that occupy disjoint bytes and
   * reading it back big-endian gives every field's value: the caller's
   * value where it supplied one, the default elsewhere.
   */
  lemma WriteThenReadReelHeader(img: FileImage, header: map<string, Value>, defs: seq<FieldDef>,
                                codecs: FloatCodecs)
    requires DistinctNames(defs) && Disjoint(defs)
    requires forall k :: 0 <= k < |defs| ==> PackableInt(ValueOrDefault(header, defs[k]), defs[k].segYType)
    ensures WriteFields(ReelWriter(header, codecs), img, defs).1.None?
    ensures var out := WriteFields(ReelWriter(header, codecs), img, defs).0.data;
      var read := ReadFields(ReelReader(out, Big, codecs), defs);
      read.Ok? && read.value.Keys == Names(defs) &&
      forall k :: 0 <= k < |defs| ==> read.value[defs[k].name] == ValueOrDefault(header, defs[k])
  {
    WrittenFieldsInPlace(img, header, defs, codecs);
    var out := WriteFields(ReelWriter(header, codecs), img, defs).0.data;
    var read := ReelReader(out, Big, codecs);
    forall k | 0 <= k < |defs|
      ensures read(defs[k]) == Ok(ValueOrDefault(header, defs[k]))
    {
      var d := defs[k];
      var ctype := SEG_Y_TYPE_TO_CTYPE[d.segYType];
      var buf := FieldBytes(header, d, codecs).value;
      ReadSeesBlock(out, d.pos, buf, d.segYType, 1, Big, codecs);
      UnpackPackInts([ValueOrDefault(header, d)], ctype, codecs);
    }
    ReadFieldsOk(read, defs);
    ReadFieldsKeys(read, defs);
    ReadFieldsValues(read, defs);
  }

  // ---------------------------------------------------------------------
  // trace_length_bytes
  // ---------------------------------------------------------------------

  /** trace_length_bytes: header['ns'] * bps + 240; KeyError when the header
      has no 'ns'. A float 'ns' gives a float length. */
  function TraceLengthBytes(header: map<string, Value>, bps: nat): (r: Result<Value>)
    ensures "ns" !in header <==> r == Err(KeyError)
    ensures r.Ok? ==> match header["ns"]
      case IntValue(ns) => r.value.IntValue? && r.value.i - TRACE_HEADER_NUM_BYTES == ns * bps
      case FloatValue(ns) => r.value.FloatValue? && r.value.x - TRACE_HEADER_NUM_BYTES as real == ns * bps as real
  {
    if "ns" !in header then Err(KeyError)
    else match header["ns"]
      case IntValue(ns) => Ok(IntValue(ns * bps + TRACE_HEADER_NUM_BYTES))
      case FloatValue(ns) => Ok(FloatValue(ns * bps as real + TRACE_HEADER_NUM_BYTES as real))
  }

  /** A non-negative integer sample count gives a trace at least as long as
      its 240-byte header, growing by bps per sample. */
  lemma TraceLengthBounds(header: map<string, Value>, bps: nat)
    requires "ns" in header && header["ns"].IntValue? && header["ns"].i >= 0
    ensures TraceLengthBytes(header, bps).Ok?
    ensures TraceLengthBytes(header, bps).value.i >= TRACE_HEADER_NUM_BYTES
    ensures TraceLengthBytes(header[ "ns" := IntValue(header["ns"].i + 1)], bps).value.i ==
            TraceLengthBytes(header, bps).value.i + bps
  {
  }
}
