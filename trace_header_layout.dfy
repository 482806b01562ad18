/**
 * The trace header layout of segpy/toolkit.py. compile_trace_header_format
 * sorts the trace header fields by byte position and walks them with a
 * running length, emitting a pad directive wherever that length and the
 * next field's position differ and a format character per field; it
 * asserts that the layout ends at byte 240. _compile_trace_header_record
 * names the unpacked tuple's items in the same sorted order.
 *
 * The field table TRACE_HEADER_DEF is a parameter here: a sequence of
 * (name, pos, type) records, in the dict's order.
 */
module TraceHeaderLayout {
  import opened SegyBase
  import opened DataTypes

  /** _TraceAttributeSpec(name, pos, type): one trace header field. */
  datatype FieldSpec = FieldSpec(name: string, pos: int, segYType: string)

  /** One unit of a struct format string: `<n>x` skips n bytes, a format character reads one value. */
  datatype Directive = Pad(count: int) | Item(ctype: string)

  /** A compiled struct.Struct: the byte order and the directives that follow it. */
  datatype HeaderFormat = HeaderFormat(endian: Endian, directives: seq<Directive>)

  /** The format characters struct.Struct accepts among the ctypes of the type tables. */
  const STRUCT_CODES: set<string> := {"i", "I", "h", "H", "b", "B", "f"}

  // ---------------------------------------------------------------------
  // sorted(record_specs, key=lambda r: r.pos)
  // ---------------------------------------------------------------------

  predicate SortedByPos(s: seq<FieldSpec>) {
    forall i, j :: 0 <= i < j < |s| ==> s[i].pos <= s[j].pos
  }

  /** Insert x after every element whose position does not exceed its own. */
  function Insert(x: FieldSpec, s: seq<FieldSpec>): (r: seq<FieldSpec>)
    ensures |r| == |s| + 1
    decreases |s|
  {
    if s == [] then [x]
    else if x.pos < s[0].pos then [x] + s
    else [s[0]] + Insert(x, s[1..])
  }

  /** Python's sorted by position: a stable sort, here by insertion. */
  function SortByPos(specs: seq<FieldSpec>): (r: seq<FieldSpec>)
    ensures |r| == |specs|
    decreases |specs|
  {
    if specs == [] then [] else Insert(specs[|specs| - 1], SortByPos(specs[..|specs| - 1]))
  }

  /** A bound below x and every element of s is a bound below the insertion. */
  lemma {:induction false} InsertAbove(x: FieldSpec, s: seq<FieldSpec>, lo: int)
    requires lo <= x.pos && forall k :: 0 <= k < |s| ==> lo <= s[k].pos
    ensures forall k :: 0 <= k < |Insert(x, s)| ==> lo <= Insert(x, s)[k].pos
    decreases |s|
  {
    if s != [] && x.pos >= s[0].pos {
      InsertAbove(x, s[1..], lo);
      var rest := Insert(x, s[1..]);
      assert Insert(x, s) == [s[0]] + rest;
    }
  }

  lemma {:induction false} InsertSorted(x: FieldSpec, s: seq<FieldSpec>)
    requires SortedByPos(s)
    ensures SortedByPos(Insert(x, s))
    decreases |s|
  {
    if s != [] && x.pos >= s[0].pos {
      var rest := Insert(x, s[1..]);
      InsertSorted(x, s[1..]);
      InsertAbove(x, s[1..], s[0].pos);
      var r := [s[0]] + rest;
      assert Insert(x, s) == r;
      forall i, j | 0 <= i < j < |r|
        ensures r[i].pos <= r[j].pos
      {
        assert r[j] == rest[j - 1];
        if i > 0 {
          assert r[i] == rest[i - 1];
        }
      }
    }
  }

  lemma {:induction false} InsertPermutes(x: FieldSpec, s: seq<FieldSpec>)
    ensures multiset(Insert(x, s)) == multiset(s) + multiset{x}
    decreases |s|
  {
    if s != [] && x.pos >= s[0].pos {
      InsertPermutes(x, s[1..]);
      assert s == [s[0]] + s[1..];
    }
  }

  /** The sort orders the fields by position. */
  lemma {:induction false} SortByPosSorted(specs: seq<FieldSpec>)
    ensures SortedByPos(SortByPos(specs))
    decreases |specs|
  {
    if specs != [] {
      var init := specs[..|specs| - 1];
      SortByPosSorted(init);
      InsertSorted(specs[|specs| - 1], SortByPos(init));
    }
  }

  /** The sort is a permutation of the fields. */
  lemma {:induction false} SortByPosPermutes(specs: seq<FieldSpec>)
    ensures multiset(SortByPos(specs)) == multiset(specs)
    decreases |specs|
  {
    if specs != [] {
      var init, last := specs[..|specs| - 1], specs[|specs| - 1];
      SortByPosPermutes(init);
      InsertPermutes(last, SortByPos(init));
      assert specs == init + [last];
    }
  }

  /** The fields at byte position p, in order. */
  function AtPos(s: seq<FieldSpec>, p: int): seq<FieldSpec>
    decreases |s|
  {
    if s == [] then [] else (if s[0].pos == p then [s[0]] else []) + AtPos(s[1..], p)
  }

  lemma {:induction false} AtPosAppend(s: seq<FieldSpec>, x: FieldSpec, p: int)
    ensures AtPos(s + [x], p) == AtPos(s, p) + (if x.pos == p then [x] else [])
    decreases |s|
  {
    if s != [] {
      assert (s + [x])[1..] == s[1..] + [x];
      AtPosAppend(s[1..], x, p);
    }
  }

  lemma {:induction false} AtPosBelow(s: seq<FieldSpec>, p: int)
    requires forall k :: 0 <= k < |s| ==> p < s[k].pos
    ensures AtPos(s, p) == []
    decreases |s|
  {
    if s != [] {
      AtPosBelow(s[1..], p);
    }
  }

  lemma AtPosCons(h: FieldSpec, t: seq<FieldSpec>, p: int)
    ensures AtPos([h] + t, p) == (if h.pos == p then [h] else []) + AtPos(t, p)
  {
    assert ([h] + t)[1..] == t;
  }

  lemma {:induction false} InsertAtPos(x: FieldSpec, s: seq<FieldSpec>, p: int)
    requires SortedByPos(s)
    ensures AtPos(Insert(x, s), p) == AtPos(s, p) + (if x.pos == p then [x] else [])
    decreases |s|
  {
    if s == [] {
      AtPosCons(x, [], p);
    } else if x.pos < s[0].pos {
      AtPosCons(x, s, p);
      if x.pos == p {
        forall k | 0 <= k < |s|
          ensures p < s[k].pos
        {
          assert s[0].pos <= s[k].pos;
        }
        AtPosBelow(s, p);
      }
    } else {
      var rest := Insert(x, s[1..]);
      assert s == [s[0]] + s[1..];
      InsertAtPos(x, s[1..], p);
      AtPosCons(s[0], rest, p);
      AtPosCons(s[0], s[1..], p);
    }
  }

  /**
   * The sort is stable: the fields sharing any one position keep the order
   * they had in the field table.
   */
  lemma {:induction false} SortStable(specs: seq<FieldSpec>, p: int)
    ensures AtPos(SortByPos(specs), p) == AtPos(specs, p)
    decreases |specs|
  {
    if specs != [] {
      var init, last := specs[..|specs| - 1], specs[|specs| - 1];
      SortStable(init, p);
      SortByPosSorted(init);
      InsertAtPos(last, SortByPos(init), p);
      assert specs == init + [last];
      AtPosAppend(init, last, p);
    }
  }

  /** _compile_trace_header_record: the TraceHeader item names, in unpack order. */
  function TraceHeaderNames(specs: seq<FieldSpec>): (names: seq<string>)
    ensures |names| == |specs|
  {
    var sorted := SortByPos(specs);
    seq(|sorted|, k requires 0 <= k < |sorted| => sorted[k].name)
  }

  // ---------------------------------------------------------------------
  // The walk of compile_trace_header_format
  // ---------------------------------------------------------------------

  /**
   * The pad in front of a field: as the toolkit computes it (length - pos,
   * negative for a gap) or as evidently intended (pos - length).
   */
  datatype PadRule = AsWritten | Intended

  function PadBefore(rule: PadRule, length: int, pos: int): int {
    match rule
    case AsWritten => length - pos
    case Intended => pos - length
  }

  /** The directives emitted so far and the running length. */
  datatype Walked = Walked(directives: seq<Directive>, length: int)

  /** size_in_bytes(CTYPES[t]); every ctype of the table has a size. */
  function TypeSize(t: string): (r: nat)
    requires t in SEG_Y_TYPE_TO_CTYPE
    ensures SizeInBytes(SEG_Y_TYPE_TO_CTYPE[t]) == Ok(r)
  {
    SampleFormatSizes();
    SizeInBytes(SEG_Y_TYPE_TO_CTYPE[t]).value
  }

  /**
   * One iteration: the pad when it is non-zero, then the field's format
   * character. A type missing from the table raises KeyError; the
   * intended compiler refuses an overlap (a negative pad).
   */
  function Step(w: Walked, spec: FieldSpec, rule: PadRule): Result<Walked> {
    var pad := PadBefore(rule, w.length, spec.pos);
    if rule == Intended && pad < 0 then Err(SchemaLayoutError)
    else if spec.segYType !in SEG_Y_TYPE_TO_CTYPE then Err(KeyError)
    else
      var padded := if pad != 0 then w.directives + [Pad(pad)] else w.directives;
      Ok(Walked(padded + [Item(SEG_Y_TYPE_TO_CTYPE[spec.segYType])], w.length + pad + TypeSize(spec.segYType)))
  }

  /** The walk over the fields in the given order, starting from length 0. */
  function WalkFields(fields: seq<FieldSpec>, rule: PadRule): Result<Walked>
    decreases |fields|
  {
    if fields == [] then Ok(Walked([], 0))
    else
      match WalkFields(fields[..|fields| - 1], rule)
      case Err(e) => Err(e)
      case Ok(w) => Step(w, fields[|fields| - 1], rule)
  }

  predicate StructAccepts(directives: seq<Directive>) {
    forall k :: 0 <= k < |directives| ==>
      match directives[k]
      case Pad(n) => n >= 0
      case Item(c) => c in STRUCT_CODES
  }

  /**
   * compile_trace_header_format under a pad rule: the walk over the sorted
   * fields, the assertion that the length is 240, then struct.Struct,
   * which refuses a negative repeat count and a non-struct ctype.
   */
  function Compile(specs: seq<FieldSpec>, endian: Endian, rule: PadRule): Result<HeaderFormat> {
    match WalkFields(SortByPos(specs), rule)
    case Err(e) => Err(e)
    case Ok(w) =>
      if w.length != TRACE_HEADER_NUM_BYTES then Err(AssertionError)
      else if !StructAccepts(w.directives) then Err(StructError)
      else Ok(HeaderFormat(endian, w.directives))
  }

  /** Once the walk of a prefix fails, the whole walk fails the same way. */
  lemma {:induction false} WalkErrSticks(fields: seq<FieldSpec>, n: nat, rule: PadRule)
    requires n <= |fields| && WalkFields(fields[..n], rule).Err?
    ensures WalkFields(fields, rule) == WalkFields(fields[..n], rule)
    decreases |fields| - n
  {
    if n < |fields| {
      var init := fields[..|fields| - 1];
      assert init[..n] == fields[..n];
      WalkErrSticks(init, n, rule);
    } else {
      assert fields[..n] == fields;
    }
  }

  /** The walk of one more field is one more step. */
  lemma WalkStep(fields: seq<FieldSpec>, i: nat, rule: PadRule, w: Walked)
    requires i < |fields| && WalkFields(fields[..i], rule) == Ok(w)
    ensures WalkFields(fields[..i + 1], rule) == Step(w, fields[i], rule)
  {
    assert fields[..i + 1][..i] == fields[..i];
  }

  /** compile_trace_header_format, with the shortfall computed as written. */
  method CompileTraceHeaderFormat(specs: seq<FieldSpec>, endian: Endian) returns (r: Result<HeaderFormat>)
    ensures r == Compile(specs, endian, AsWritten)
  {
    var recordSpecs := SortByPos(specs);
    var walked := WalkAsWritten(recordSpecs);
    if walked.Err? {
      return Err(walked.error);
    }
    var fmt, length := walked.value.directives, walked.value.length;
    if length != TRACE_HEADER_NUM_BYTES {
      return Err(AssertionError);
    }
    if !StructAccepts(fmt) {
      return Err(StructError);
    }
    return Ok(HeaderFormat(endian, fmt));
  }

  /** The loop of compile_trace_header_format over the sorted fields. */
  method WalkAsWritten(recordSpecs: seq<FieldSpec>) returns (r: Result<Walked>)
    ensures r == WalkFields(recordSpecs, AsWritten)
  {
    var fmt: seq<Directive> := [];
    var length := 0;
    for i := 0 to |recordSpecs|
      invariant WalkFields(recordSpecs[..i], AsWritten) == Ok(Walked(fmt, length))
    {
      WalkStep(recordSpecs, i, AsWritten, Walked(fmt, length));
      var spec := recordSpecs[i];
      var shortfall := length - spec.pos;
      if shortfall != 0 {
        fmt := fmt + [Pad(shortfall)];
        length := length + shortfall;
      }
      if spec.segYType !in SEG_Y_TYPE_TO_CTYPE {
        WalkErrSticks(recordSpecs, i + 1, AsWritten);
        return Err(KeyError);
      }
      var ctype := SEG_Y_TYPE_TO_CTYPE[spec.segYType];
      fmt := fmt + [Item(ctype)];
      length := length + TypeSize(spec.segYType);
    }
    assert recordSpecs[..|recordSpecs|] == recordSpecs;
    return Ok(Walked(fmt, length));
  }


  // ---------------------------------------------------------------------
  // Reading a directive sequence: item offsets, sizes and format characters
  // ---------------------------------------------------------------------

  /** The bytes a format character occupies (0 for a character struct refuses). */
  function CtypeSize(c: string): nat {
    if c in CTYPE_TO_SIZE then CTYPE_TO_SIZE[c] else 0
  }

  /** struct.calcsize of the directives. */
  function StructSize(ds: seq<Directive>): int
    decreases |ds|
  {
    if ds == [] then 0
    else
      StructSize(ds[..|ds| - 1]) +
      match ds[|ds| - 1]
      case Pad(n) => n
      case Item(c) => CtypeSize(c)
  }

  /** The byte offset at which each value is unpacked, in unpack order. */
  function ItemOffsets(ds: seq<Directive>): seq<int>
    decreases |ds|
  {
    if ds == [] then []
    else ItemOffsets(ds[..|ds| - 1]) + (if ds[|ds| - 1].Item? then [StructSize(ds[..|ds| - 1])] else [])
  }

  /** The format characters, in unpack order. */
  function ItemCtypes(ds: seq<Directive>): seq<string>
    decreases |ds|
  {
    if ds == [] then []
    else ItemCtypes(ds[..|ds| - 1]) + (if ds[|ds| - 1].Item? then [ds[|ds| - 1].ctype] else [])
  }

  predicate PadsPositive(ds: seq<Directive>) {
    forall k :: 0 <= k < |ds| ==> ds[k].Pad? ==> ds[k].count > 0
  }

  lemma DirectivesSnoc(ds: seq<Directive>, d: Directive)
    ensures StructSize(ds + [d]) == StructSize(ds) + match d case Pad(n) => n case Item(c) => CtypeSize(c)
    ensures ItemOffsets(ds + [d]) == ItemOffsets(ds) + (if d.Item? then [StructSize(ds)] else [])
    ensures ItemCtypes(ds + [d]) == ItemCtypes(ds) + (if d.Item? then [d.ctype] else [])
  {
    assert (ds + [d])[..|ds|] == ds;
  }

  /** With no negative pad, struct accepts the directives exactly when it knows every format character. */
  lemma {:induction false} StructAcceptsItems(ds: seq<Directive>)
    requires PadsPositive(ds)
    ensures StructAccepts(ds) <==> forall k :: 0 <= k < |ItemCtypes(ds)| ==> ItemCtypes(ds)[k] in STRUCT_CODES
    decreases |ds|
  {
    if ds != [] {
      var init, last := ds[..|ds| - 1], ds[|ds| - 1];
      assert ds == init + [last];
      StructAcceptsItems(init);
      DirectivesSnoc(init, last);
      if StructAccepts(ds) {
        assert StructAccepts(init) by {
          forall k | 0 <= k < |init| ensures init[k] == ds[k] { }
        }
        if last.Item? {
          assert ds[|ds| - 1] == last;
        }
      }
      if forall k :: 0 <= k < |ItemCtypes(ds)| ==> ItemCtypes(ds)[k] in STRUCT_CODES {
        assert forall k :: 0 <= k < |ItemCtypes(init)| ==> ItemCtypes(init)[k] == ItemCtypes(ds)[k];
        if last.Item? {
          assert ItemCtypes(ds)[|ItemCtypes(init)|] == last.ctype;
        }
        forall k | 0 <= k < |ds|
          ensures match ds[k] case Pad(n) => n >= 0 case Item(c) => c in STRUCT_CODES
        {
          if k < |init| {
            assert ds[k] == init[k];
          }
        }
      }
    }
  }

  // ---------------------------------------------------------------------
  // Views of a sorted field table
  // ---------------------------------------------------------------------

  /** Every field's type is in the type table. */
  predicate Known(fields: seq<FieldSpec>) {
    forall k :: 0 <= k < |fields| ==> fields[k].segYType in SEG_Y_TYPE_TO_CTYPE
  }

  /** The byte just past the last field (0 for no fields). */
  function Reach(fields: seq<FieldSpec>): int
    requires Known(fields)
  {
    if fields == [] then 0 else fields[|fields| - 1].pos + TypeSize(fields[|fields| - 1].segYType)
  }

  /** Each field starts where the one before it ends, the first at byte 0. */
  predicate Contiguous(fields: seq<FieldSpec>)
    requires Known(fields)
    decreases |fields|
  {
    fields == [] ||
    (Contiguous(fields[..|fields| - 1]) && fields[|fields| - 1].pos == Reach(fields[..|fields| - 1]))
  }

  /** No field starts before the one before it ends, the first not before byte 0. */
  predicate Apart(fields: seq<FieldSpec>)
    requires Known(fields)
    decreases |fields|
  {
    fields == [] ||
    (Apart(fields[..|fields| - 1]) && fields[|fields| - 1].pos >= Reach(fields[..|fields| - 1]))
  }

  function Positions(fields: seq<FieldSpec>): (r: seq<int>)
    ensures |r| == |fields|
    ensures forall k :: 0 <= k < |fields| ==> r[k] == fields[k].pos
  {
    seq(|fields|, k requires 0 <= k < |fields| => fields[k].pos)
  }

  function Ctypes(fields: seq<FieldSpec>): (r: seq<string>)
    requires Known(fields)
    ensures |r| == |fields|
    ensures forall k :: 0 <= k < |fields| ==> r[k] == SEG_Y_TYPE_TO_CTYPE[fields[k].segYType]
  {
    seq(|fields|, k requires 0 <= k < |fields| => SEG_Y_TYPE_TO_CTYPE[fields[k].segYType])
  }

  /** One format character per field, with no pads. */
  function ItemsOf(fields: seq<FieldSpec>): (r: seq<Directive>)
    requires Known(fields)
    ensures |r| == |fields|
    ensures forall k :: 0 <= k < |fields| ==> r[k] == Item(SEG_Y_TYPE_TO_CTYPE[fields[k].segYType])
  {
    seq(|fields|, k requires 0 <= k < |fields| => Item(SEG_Y_TYPE_TO_CTYPE[fields[k].segYType]))
  }

  // ---------------------------------------------------------------------
  // What the walk produces
  // ---------------------------------------------------------------------

  lemma KnownPrefix(fields: seq<FieldSpec>, n: nat)
    requires Known(fields) && n <= |fields|
    ensures Known(fields[..n])
  {
    assert forall k :: 0 <= k < n ==> fields[..n][k] == fields[k];
  }

  lemma KnownSnoc(fields: seq<FieldSpec>)
    requires fields != [] && Known(fields[..|fields| - 1])
    requires fields[|fields| - 1].segYType in SEG_Y_TYPE_TO_CTYPE
    ensures Known(fields)
  {
    forall k | 0 <= k < |fields| - 1
      ensures fields[k].segYType in SEG_Y_TYPE_TO_CTYPE
    {
      assert fields[k] == fields[..|fields| - 1][k];
    }
  }

  lemma FieldsSnoc(fields: seq<FieldSpec>)
    requires fields != [] && Known(fields)
    ensures Known(fields[..|fields| - 1])
    ensures Positions(fields) == Positions(fields[..|fields| - 1]) + [fields[|fields| - 1].pos]
    ensures Ctypes(fields) ==
      Ctypes(fields[..|fields| - 1]) + [SEG_Y_TYPE_TO_CTYPE[fields[|fields| - 1].segYType]]
  {
    KnownPrefix(fields, |fields| - 1);
  }

  /**
   * Fields that tile contiguously from byte 0 give no pad under either pad
   * rule: one format character per field, and the running length ends
   * where the last field ends.
   */
  lemma {:induction false} ContiguousWalk(fields: seq<FieldSpec>, rule: PadRule)
    requires Known(fields) && Contiguous(fields)
    ensures WalkFields(fields, rule) == Ok(Walked(ItemsOf(fields), Reach(fields)))
    decreases |fields|
  {
    if fields != [] {
      var init, last := fields[..|fields| - 1], fields[|fields| - 1];
      KnownPrefix(fields, |fields| - 1);
      ContiguousWalk(init, rule);
      assert ItemsOf(fields) == ItemsOf(init) + [Item(SEG_Y_TYPE_TO_CTYPE[last.segYType])];
    }
  }

  /** One step of the intended walk: refuses an overlap, else places the field at its position. */
  lemma IntendedStep(w: Walked, spec: FieldSpec)
    requires StructSize(w.directives) == w.length && PadsPositive(w.directives)
    ensures Step(w, spec, Intended).Ok? <==> spec.segYType in SEG_Y_TYPE_TO_CTYPE && spec.pos >= w.length
    ensures Step(w, spec, Intended).Err? ==> Step(w, spec, Intended).error in {KeyError, SchemaLayoutError}
    ensures Step(w, spec, Intended).Ok? ==>
      var v := Step(w, spec, Intended).value;
      v.length == spec.pos + TypeSize(spec.segYType) &&
      StructSize(v.directives) == v.length && PadsPositive(v.directives) &&
      ItemOffsets(v.directives) == ItemOffsets(w.directives) + [spec.pos] &&
      ItemCtypes(v.directives) == ItemCtypes(w.directives) + [SEG_Y_TYPE_TO_CTYPE[spec.segYType]]
  {
    var pad := spec.pos - w.length;
    if pad >= 0 && spec.segYType in SEG_Y_TYPE_TO_CTYPE {
      var c := SEG_Y_TYPE_TO_CTYPE[spec.segYType];
      var padded := if pad != 0 then w.directives + [Pad(pad)] else w.directives;
      if pad != 0 {
        DirectivesSnoc(w.directives, Pad(pad));
      }
      assert StructSize(padded) == spec.pos && ItemOffsets(padded) == ItemOffsets(w.directives);
      assert ItemCtypes(padded) == ItemCtypes(w.directives);
      assert PadsPositive(padded);
      DirectivesSnoc(padded, Item(c));
      assert CtypeSize(c) == TypeSize(spec.segYType);
    }
  }

  /**
   * The intended walk succeeds exactly when every type is known and no two
   * fields overlap; it then places every value at its field's position and
   * the layout's size is where the last field ends.
   */
  lemma {:induction false} IntendedWalk(fields: seq<FieldSpec>)
    ensures WalkFields(fields, Intended).Ok? <==> Known(fields) && Apart(fields)
    ensures WalkFields(fields, Intended).Err? ==> WalkFields(fields, Intended).error in {KeyError, SchemaLayoutError}
    ensures WalkFields(fields, Intended).Ok? ==>
      var w := WalkFields(fields, Intended).value;
      w.length == Reach(fields) && StructSize(w.directives) == w.length && PadsPositive(w.directives) &&
      ItemOffsets(w.directives) == Positions(fields) && ItemCtypes(w.directives) == Ctypes(fields)
    decreases |fields|
  {
    if fields != [] {
      var init, last := fields[..|fields| - 1], fields[|fields| - 1];
      IntendedWalk(init);
      if Known(fields) {
        KnownPrefix(fields, |fields| - 1);
      }
      if WalkFields(init, Intended).Ok? {
        var w := WalkFields(init, Intended).value;
        IntendedStep(w, last);
        if WalkFields(fields, Intended).Ok? {
          KnownSnoc(fields);
          FieldsSnoc(fields);
        }
      }
    }
  }

  /** A successful step reads one more value, with the field's format character. */
  lemma CtypesStep(w: Walked, spec: FieldSpec, rule: PadRule)
    requires Step(w, spec, rule).Ok?
    ensures spec.segYType in SEG_Y_TYPE_TO_CTYPE
    ensures ItemCtypes(Step(w, spec, rule).value.directives) ==
      ItemCtypes(w.directives) + [SEG_Y_TYPE_TO_CTYPE[spec.segYType]]
  {
    var pad := PadBefore(rule, w.length, spec.pos);
    var padded := if pad != 0 then w.directives + [Pad(pad)] else w.directives;
    if pad != 0 {
      DirectivesSnoc(w.directives, Pad(pad));
    }
    DirectivesSnoc(padded, Item(SEG_Y_TYPE_TO_CTYPE[spec.segYType]));
  }

  /** Under either pad rule, a successful walk reads one value per field, in field order. */
  lemma {:induction false} WalkCtypes(fields: seq<FieldSpec>, rule: PadRule)
    requires WalkFields(fields, rule).Ok?
    ensures Known(fields) && ItemCtypes(WalkFields(fields, rule).value.directives) == Ctypes(fields)
    decreases |fields|
  {
    if fields != [] {
      var init := fields[..|fields| - 1];
      WalkCtypes(init, rule);
      CtypesStep(WalkFields(init, rule).value, fields[|fields| - 1], rule);
      KnownSnoc(fields);
      FieldsSnoc(fields);
    }
  }

  // ---------------------------------------------------------------------
  // compile_trace_header_format and the TraceHeader record
  // ---------------------------------------------------------------------

  /**
   * When the sorted fields tile contiguously from byte 0, the as-written
   * and the intended compilers agree: no pad directive, one format
   * character per field in position order, and success exactly when the
   * fields end at byte 240 and every ctype is a struct code.
   */
  lemma ContiguousCompile(specs: seq<FieldSpec>, endian: Endian, sorted: seq<FieldSpec>)
    requires sorted == SortByPos(specs)
    requires Known(sorted) && Contiguous(sorted)
    ensures Compile(specs, endian, AsWritten) == Compile(specs, endian, Intended)
    ensures Compile(specs, endian, AsWritten).Ok? <==>
      Reach(sorted) == TRACE_HEADER_NUM_BYTES &&
      forall k :: 0 <= k < |sorted| ==> SEG_Y_TYPE_TO_CTYPE[sorted[k].segYType] in STRUCT_CODES
    ensures Compile(specs, endian, AsWritten).Ok? ==>
      Compile(specs, endian, AsWritten).value.directives == ItemsOf(sorted)
  {
    ContiguousWalk(sorted, AsWritten);
    ContiguousWalk(sorted, Intended);
    ItemsAccepted(sorted);
  }

  lemma ItemsAccepted(fields: seq<FieldSpec>)
    requires Known(fields)
    ensures StructAccepts(ItemsOf(fields)) <==>
      forall k :: 0 <= k < |fields| ==> SEG_Y_TYPE_TO_CTYPE[fields[k].segYType] in STRUCT_CODES
  {
    var items := ItemsOf(fields);
    if StructAccepts(items) {
      forall k | 0 <= k < |fields|
        ensures SEG_Y_TYPE_TO_CTYPE[fields[k].segYType] in STRUCT_CODES
      {
        assert items[k] == Item(SEG_Y_TYPE_TO_CTYPE[fields[k].segYType]);
      }
    }
  }

  /**
   * The intended compiler succeeds exactly when the sorted fields have
   * known types, do not overlap, end at byte 240 and have struct codes;
   * it then unpacks every field from its own position, and the struct's
   * size is 240.
   */
  lemma IntendedCompile(specs: seq<FieldSpec>, endian: Endian, sorted: seq<FieldSpec>)
    requires sorted == SortByPos(specs)
    ensures Compile(specs, endian, Intended).Ok? <==>
      Known(sorted) && Apart(sorted) && Reach(sorted) == TRACE_HEADER_NUM_BYTES &&
      forall k :: 0 <= k < |sorted| ==> Ctypes(sorted)[k] in STRUCT_CODES
    ensures Compile(specs, endian, Intended).Ok? ==>
      var ds := Compile(specs, endian, Intended).value.directives;
      ItemOffsets(ds) == Positions(sorted) && StructSize(ds) == TRACE_HEADER_NUM_BYTES && PadsPositive(ds)
  {
    IntendedWalk(sorted);
    if WalkFields(sorted, Intended).Ok? {
      StructAcceptsItems(WalkFields(sorted, Intended).value.directives);
    }
  }

  /**
   * The TraceHeader record names its items in the order the compiled
   * struct unpacks them: item k is the k-th field by position.
   */
  lemma NamesFollowItems(specs: seq<FieldSpec>, endian: Endian, rule: PadRule, sorted: seq<FieldSpec>)
    requires sorted == SortByPos(specs)
    requires Compile(specs, endian, rule).Ok?
    ensures var ds := Compile(specs, endian, rule).value.directives;
      Known(sorted) && |ItemCtypes(ds)| == |TraceHeaderNames(specs)| &&
      forall k :: 0 <= k < |sorted| ==>
        TraceHeaderNames(specs)[k] == sorted[k].name &&
        ItemCtypes(ds)[k] == SEG_Y_TYPE_TO_CTYPE[sorted[k].segYType]
  {
    WalkCtypes(sorted, rule);
  }

  // ---------------------------------------------------------------------
  // The shortfall as written
  // ---------------------------------------------------------------------

  /** The first field that starts after the end of the one before it. */
  lemma {:induction false} FirstGap(fields: seq<FieldSpec>) returns (j: nat)
    requires Known(fields) && Apart(fields) && !Contiguous(fields)
    ensures j < |fields| && Known(fields[..j]) && Contiguous(fields[..j])
    ensures fields[j].pos > Reach(fields[..j])
    decreases |fields|
  {
    var init := fields[..|fields| - 1];
    KnownPrefix(fields, |fields| - 1);
    if Contiguous(init) {
      j := |fields| - 1;
    } else {
      j := FirstGap(init);
      assert init[..j] == fields[..j];
    }
  }

  /** A successful walk extends the walk of every prefix. */
  lemma {:induction false} WalkPrefix(fields: seq<FieldSpec>, n: nat, rule: PadRule)
    requires n <= |fields| && WalkFields(fields, rule).Ok?
    ensures WalkFields(fields[..n], rule).Ok?
    ensures WalkFields(fields[..n], rule).value.directives <= WalkFields(fields, rule).value.directives
    decreases |fields| - n
  {
    if n == |fields| {
      assert fields[..n] == fields;
    } else {
      var init := fields[..|fields| - 1];
      assert init[..n] == fields[..n];
      WalkPrefix(init, n, rule);
    }
  }

  /**
   * As written, every schema whose sorted fields leave a gap fails to
   * compile: the shortfall in front of the first gap is negative, and
   * either the length assertion or struct.Struct refuses the result.
   */
  lemma AsWrittenGapFails(specs: seq<FieldSpec>, endian: Endian, sorted: seq<FieldSpec>)
    requires sorted == SortByPos(specs)
    requires Known(sorted) && Apart(sorted) && !Contiguous(sorted)
    ensures Compile(specs, endian, AsWritten).Err?
    ensures Compile(specs, endian, AsWritten).error in {AssertionError, StructError}
  {
    var j := FirstGap(sorted);
    ContiguousWalk(sorted[..j], AsWritten);
    var w := Walked(ItemsOf(sorted[..j]), Reach(sorted[..j]));
    WalkStep(sorted, j, AsWritten, w);
    var shortfall := w.length - sorted[j].pos;
    assert shortfall < 0;
    var next := WalkFields(sorted[..j + 1], AsWritten).value.directives;
    assert next[|w.directives|] == Pad(shortfall);
    AsWrittenWalkOk(sorted);
    WalkPrefix(sorted, j + 1, AsWritten);
    var ds := WalkFields(sorted, AsWritten).value.directives;
    assert ds[|w.directives|] == Pad(shortfall);
    assert !StructAccepts(ds);
  }

  /** The as-written walk only fails on a type missing from the table. */
  lemma {:induction false} AsWrittenWalkOk(fields: seq<FieldSpec>)
    requires Known(fields)
    ensures WalkFields(fields, AsWritten).Ok?
    decreases |fields|
  {
    if fields != [] {
      KnownPrefix(fields, |fields| - 1);
      AsWrittenWalkOk(fields[..|fields| - 1]);
    }
  }

  /** Two 4-byte fields at bytes 0 and 236, with 232 unused bytes between them. */
  const GAPPED_SCHEMA: seq<FieldSpec> := [FieldSpec("first", 0, "int32"), FieldSpec("last", 236, "int32")]

  /**
   * The as-written shortfall rejects a schema that ends at byte 240 with a
   * gap: the pad is -232 bytes and the running length ends at -224, so the
   * length assertion fails; the intended compiler places the two values at
   * bytes 0 and 236.
   */
  lemma GappedSchemaExample()
    ensures Compile(GAPPED_SCHEMA, Big, AsWritten) == Err(AssertionError)
    ensures Compile(GAPPED_SCHEMA, Big, Intended).Ok?
    ensures ItemOffsets(Compile(GAPPED_SCHEMA, Big, Intended).value.directives) == [0, 236]
  {
    var s := GAPPED_SCHEMA;
    assert s[..1] == [s[0]] && s[..1][..0] == [];
    assert SortByPos(s[..1]) == [s[0]];
    assert [s[0]][1..] == [];
    assert Insert(s[1], [s[0]]) == [s[0]] + Insert(s[1], []) == s;
    assert SortByPos(s) == s;
    assert SEG_Y_TYPE_TO_CTYPE["int32"] == "i" && TypeSize("int32") == 4;
    var w1 := Walked([Item("i")], 4);
    assert s[0].pos == 0 && s[0].segYType == "int32";
    assert PadBefore(AsWritten, 0, s[0].pos) == 0;
    assert [] + [Item("i")] == [Item("i")];
    assert Step(Walked([], 0), s[0], AsWritten) == Ok(w1);
    assert WalkFields(s[..1], AsWritten) == Ok(w1);
    assert s[1].pos == 236 && s[1].segYType == "int32";
    assert PadBefore(AsWritten, 4, s[1].pos) == -232;
    assert [Item("i")] + [Pad(-232)] + [Item("i")] == [Item("i"), Pad(-232), Item("i")];
    assert Step(w1, s[1], AsWritten) == Ok(Walked([Item("i"), Pad(-232), Item("i")], -224));
    assert WalkFields(s, AsWritten) == Ok(Walked([Item("i"), Pad(-232), Item("i")], -224));
    IntendedCompile(s, Big, s);
    assert Contiguous(s[..1]) && Reach(s[..1]) == 4;
    assert Apart(s);
  }
}
