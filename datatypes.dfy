/**
 * The closed type tables of segpy/datatypes.py: data sample format codes,
 * SEG-Y type names, struct format characters ("ctypes"), their sizes and
 * the integer limits of each SEG-Y integer type.
 */
module DataTypes {
  import opened SegyBase

  /** The data sample format code of the binary reel header (an IntEnum). */
  datatype DataSampleFormat = IBM | INT32 | INT16 | FLOAT32 | INT8 {
    function Code(): int {
      match this
      case IBM => 1
      case INT32 => 2
      case INT16 => 3
      case FLOAT32 => 5
      case INT8 => 8
    }
  }

  /** DataSampleFormat(code): the member with that value, or ValueError. */
  function DataSampleFormatOf(code: int): (r: Result<DataSampleFormat>)
    ensures r.Ok? <==> code in {1, 2, 3, 5, 8}
    ensures r.Ok? ==> r.value.Code() == code
    ensures r.Err? ==> r.error == ValueError
  {
    if code == 1 then Ok(IBM)
    else if code == 2 then Ok(INT32)
    else if code == 3 then Ok(INT16)
    else if code == 5 then Ok(FLOAT32)
    else if code == 8 then Ok(INT8)
    else Err(ValueError)
  }

  const DATA_SAMPLE_FORMAT_TO_SEG_Y_TYPE: map<DataSampleFormat, string> :=
    map[IBM := "ibm", INT32 := "int32", INT16 := "int16", FLOAT32 := "float32", INT8 := "int8"]

  /** The dict comprehension {v: k for k, v in ...items()}. */
  const SEG_Y_TYPE_TO_DATA_SAMPLE_FORMAT: map<string, DataSampleFormat> :=
    Invert(DATA_SAMPLE_FORMAT_TO_SEG_Y_TYPE)

  ghost predicate Injective<K, V>(m: map<K, V>) {
    forall k1, k2 :: k1 in m && k2 in m && m[k1] == m[k2] ==> k1 == k2
  }

  /** Swap keys and values of an injective map. */
  function Invert<K, V>(m: map<K, V>): (n: map<V, K>)
    requires Injective(m)
    ensures n.Keys == m.Values
    ensures forall k :: k in m ==> m[k] in n && n[m[k]] == k
    ensures forall v :: v in n ==> n[v] in m && m[n[v]] == v
  {
    map k | k in m :: m[k] := k
  }

  /** SEG-Y type name to struct format character. */
  const SEG_Y_TYPE_TO_CTYPE: map<string, string> :=
    map["int32" := "i", "nnint32" := "I", "int16" := "h", "nnint16" := "H",
        "int8" := "b", "nnint8" := "B", "float32" := "f", "ibm" := "ibm"]

  const CTYPE_TO_SIZE: map<string, nat> :=
    map["i" := 4, "I" := 4, "h" := 2, "H" := 2, "b" := 1, "B" := 1, "f" := 4, "ibm" := 4]

  /** size_in_bytes: the size of a ctype; ValueError for any other code. */
  function SizeInBytes(ctype: string): (r: Result<nat>)
    ensures r.Ok? <==> ctype in {"i", "I", "f", "ibm", "h", "H", "b", "B"}
    ensures ctype in {"i", "I", "f", "ibm"} ==> r == Ok(4)
    ensures ctype in {"h", "H"} ==> r == Ok(2)
    ensures ctype in {"b", "B"} ==> r == Ok(1)
    ensures r.Err? ==> r.error == ValueError
  {
    if ctype in CTYPE_TO_SIZE then Ok(CTYPE_TO_SIZE[ctype]) else Err(ValueError)
  }

  datatype Limits = Limits(min: int, max: int)

  /** LIMITS for the six integer SEG-Y types (the float limits are not modelled). */
  const LIMITS: map<string, Limits> :=
    map["int32" := Limits(-2147483648, 2147483647),
        "nnint32" := Limits(0, 2147483647),
        "int16" := Limits(-32768, 32767),
        "nnint16" := Limits(0, 32767),
        "int8" := Limits(-128, 127),
        "nnint8" := Limits(0, 127)]

  predicate IsFloatType(segYType: string) {
    segYType == "ibm" || segYType == "float32"
  }

  /** Bytes per sample of a data sample format: code -> type -> ctype -> size. */
  function BytesPerSampleOfFormat(f: DataSampleFormat): (r: Result<nat>)
  {
    FormatKeysCovered(f);
    var segYType := DATA_SAMPLE_FORMAT_TO_SEG_Y_TYPE[f];
    if segYType in SEG_Y_TYPE_TO_CTYPE then SizeInBytes(SEG_Y_TYPE_TO_CTYPE[segYType])
    else Err(KeyError)
  }

  lemma FormatKeysCovered(f: DataSampleFormat)
    ensures f in DATA_SAMPLE_FORMAT_TO_SEG_Y_TYPE
  {
    match f
    case IBM =>
    case INT32 =>
    case INT16 =>
    case FLOAT32 =>
    case INT8 =>
  }

  /** The two format maps are inverse bijections over codes 1, 2, 3, 5 and 8. */
  lemma SampleFormatMapsAreInverse()
    ensures forall f: DataSampleFormat ::
      (f in DATA_SAMPLE_FORMAT_TO_SEG_Y_TYPE &&
       DATA_SAMPLE_FORMAT_TO_SEG_Y_TYPE[f] in SEG_Y_TYPE_TO_DATA_SAMPLE_FORMAT &&
       SEG_Y_TYPE_TO_DATA_SAMPLE_FORMAT[DATA_SAMPLE_FORMAT_TO_SEG_Y_TYPE[f]] == f)
    ensures forall t :: t in SEG_Y_TYPE_TO_DATA_SAMPLE_FORMAT ==>
      DATA_SAMPLE_FORMAT_TO_SEG_Y_TYPE[SEG_Y_TYPE_TO_DATA_SAMPLE_FORMAT[t]] == t
    ensures SEG_Y_TYPE_TO_DATA_SAMPLE_FORMAT.Keys == {"ibm", "int32", "int16", "float32", "int8"}
    ensures forall t :: t in SEG_Y_TYPE_TO_DATA_SAMPLE_FORMAT ==>
      SEG_Y_TYPE_TO_DATA_SAMPLE_FORMAT[t].Code() in {1, 2, 3, 5, 8}
  {
    var m := DATA_SAMPLE_FORMAT_TO_SEG_Y_TYPE;
    forall f: DataSampleFormat ensures f in m { FormatKeysCovered(f); }
    assert m[IBM] == "ibm" && m[INT32] == "int32" && m[INT16] == "int16";
    assert m[FLOAT32] == "float32" && m[INT8] == "int8";
    assert m.Values == {"ibm", "int32", "int16", "float32", "int8"};
  }

  /** Every SEG-Y type maps to a ctype that has a size, and the sample formats
      1, 2, 3, 5 and 8 have 4, 4, 2, 4 and 1 bytes per sample. */
  lemma SampleFormatSizes()
    ensures forall t :: t in SEG_Y_TYPE_TO_CTYPE ==> SizeInBytes(SEG_Y_TYPE_TO_CTYPE[t]).Ok?
    ensures BytesPerSampleOfFormat(IBM) == Ok(4)
    ensures BytesPerSampleOfFormat(INT32) == Ok(4)
    ensures BytesPerSampleOfFormat(INT16) == Ok(2)
    ensures BytesPerSampleOfFormat(FLOAT32) == Ok(4)
    ensures BytesPerSampleOfFormat(INT8) == Ok(1)
  {
  }

  /** The range struct.pack accepts for each integer format character. */
  function StructRange(ctype: string): (r: Limits)
    requires ctype in {"i", "I", "h", "H", "b", "B"}
  {
    match ctype
    case "i" => Limits(-2147483648, 2147483647)
    case "I" => Limits(0, 4294967295)
    case "h" => Limits(-32768, 32767)
    case "H" => Limits(0, 65535)
    case "b" => Limits(-128, 127)
    case "B" => Limits(0, 255)
  }

  /** Each integer type's limits are ordered and lie inside the range of its
      ctype; the non-negative types start at 0, and nnint16 and nnint8 stop
      below the capacity of their unsigned ctypes. */
  lemma LimitsFitCtypes()
    ensures forall t :: t in LIMITS ==> t in SEG_Y_TYPE_TO_CTYPE && !IsFloatType(t)
    ensures forall t :: t in LIMITS ==> SEG_Y_TYPE_TO_CTYPE[t] in {"i", "I", "h", "H", "b", "B"}
    ensures forall t :: t in LIMITS ==> LIMITS[t].min <= LIMITS[t].max
    ensures forall t :: t in LIMITS ==>
      var range := StructRange(SEG_Y_TYPE_TO_CTYPE[t]);
      range.min <= LIMITS[t].min && LIMITS[t].max <= range.max
    ensures forall t :: t in LIMITS && SEG_Y_TYPE_TO_CTYPE[t] in {"I", "H", "B"} ==> LIMITS[t].min == 0
    ensures LIMITS["nnint16"].max == 32767 < StructRange("H").max
    ensures LIMITS["nnint8"].max == 127 < StructRange("B").max
  {
    forall t | t in LIMITS
      ensures t in SEG_Y_TYPE_TO_CTYPE && !IsFloatType(t)
      ensures SEG_Y_TYPE_TO_CTYPE[t] in {"i", "I", "h", "H", "b", "B"}
      ensures LIMITS[t].min <= LIMITS[t].max
      ensures StructRange(SEG_Y_TYPE_TO_CTYPE[t]).min <= LIMITS[t].min
      ensures LIMITS[t].max <= StructRange(SEG_Y_TYPE_TO_CTYPE[t]).max
      ensures SEG_Y_TYPE_TO_CTYPE[t] in {"I", "H", "B"} ==> LIMITS[t].min == 0
    {
      LimitsFitCtype(t);
    }
  }

  lemma LimitsFitCtype(t: string)
    requires t in LIMITS
    ensures t in SEG_Y_TYPE_TO_CTYPE && !IsFloatType(t)
    ensures SEG_Y_TYPE_TO_CTYPE[t] in {"i", "I", "h", "H", "b", "B"}
    ensures LIMITS[t].min <= LIMITS[t].max
    ensures StructRange(SEG_Y_TYPE_TO_CTYPE[t]).min <= LIMITS[t].min
    ensures LIMITS[t].max <= StructRange(SEG_Y_TYPE_TO_CTYPE[t]).max
    ensures SEG_Y_TYPE_TO_CTYPE[t] in {"I", "H", "B"} ==> LIMITS[t].min == 0
  {
    assert LIMITS.Keys == {"int32", "nnint32", "int16", "nnint16", "int8", "nnint8"};
    if t == "int32" {
    } else if t == "nnint32" {
    } else if t == "int16" {
    } else if t == "nnint16" {
    } else if t == "int8" {
    } else {
      assert t == "nnint8";
    }
  }
}
