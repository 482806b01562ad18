/**
 * The range-checked integer field types of segpy/field_types.py. A field
 * class built by the metaclass IntFieldMeta (or IntEnumFieldMeta) is modelled
 * as the immutable record of the attributes the metaclass puts in its
 * namespace; constructing an instance is a range check (or an enum lookup)
 * that either yields the value or raises ValueError.
 */
module FieldTypes {
  import opened SegyBase
  import opened DataTypes

  datatype EnumMember = EnumMember(name: string, value: int)

  /** SEG_Y_TYPE, MINIMUM, MAXIMUM, SIZE and (for enum fields) ENUM. */
  datatype FieldClass = FieldClass(
    name: string,
    segYType: string,
    minimum: int,
    maximum: int,
    size: nat,
    enum: Option<seq<EnumMember>>)

  /** An instance of a field class: a plain int, or a member of its enum. */
  datatype FieldValue = IntInstance(i: int) | MemberInstance(member: EnumMember)

  /**
   * IntFieldMeta.__new__: MINIMUM and MAXIMUM default to LIMITS[seg_y_type],
   * SIZE is the size of the type's ctype; a type missing from the tables
   * raises KeyError.
   */
  function DefineIntField(name: string, segYType: string, minValue: Option<int>, maxValue: Option<int>)
    : (r: Result<FieldClass>)
    requires !IsFloatType(segYType)
    ensures r.Ok? <==> segYType in SEG_Y_TYPE_TO_CTYPE
    ensures r.Err? ==> r.error == KeyError
    ensures r.Ok? ==> segYType in LIMITS && r.value.segYType == segYType && r.value.enum.None?
    ensures r.Ok? ==> r.value.minimum == (if minValue.Some? then minValue.value else LIMITS[segYType].min)
    ensures r.Ok? ==> r.value.maximum == (if maxValue.Some? then maxValue.value else LIMITS[segYType].max)
    ensures r.Ok? ==> SizeInBytes(SEG_Y_TYPE_TO_CTYPE[segYType]) == Ok(r.value.size)
  {
    LimitsFitCtypes();
    SampleFormatSizes();
    var minimum :- if minValue.Some? then Ok(minValue.value)
                   else if segYType in LIMITS then Ok(LIMITS[segYType].min)
                   else Err(KeyError);
    var maximum :- if maxValue.Some? then Ok(maxValue.value)
                   else if segYType in LIMITS then Ok(LIMITS[segYType].max)
                   else Err(KeyError);
    if segYType !in SEG_Y_TYPE_TO_CTYPE then Err(KeyError)
    else Ok(FieldClass(name, segYType, minimum, maximum, SizeInBytes(SEG_Y_TYPE_TO_CTYPE[segYType]).value, None))
  }

  /** The first member of the enum with the given value (IntEnum lookup). */
  function LookupByValue(members: seq<EnumMember>, v: int): (r: Option<EnumMember>)
    ensures r.Some? ==> r.value in members && r.value.value == v
    ensures r.None? <==> forall m :: m in members ==> m.value != v
    ensures r.Some? ==> exists k :: 0 <= k < |members| && members[k] == r.value &&
                                    forall j :: 0 <= j < k ==> members[j].value != v
    decreases |members|
  {
    if members == [] then None
    else if members[0].value == v then Some(members[0])
    else
      var r := LookupByValue(members[1..], v);
      assert forall m :: m in members ==> m == members[0] || m in members[1..];
      if r.Some? then
        var k :| 0 <= k < |members[1..]| && members[1..][k] == r.value &&
                 forall j :: 0 <= j < k ==> members[1..][j].value != v;
        assert members[k + 1] == r.value;
        assert forall j :: 0 <= j < k + 1 ==> members[j].value != v by {
          forall j | 0 <= j < k + 1 ensures members[j].value != v {
            if j > 0 { assert members[j] == members[1..][j - 1]; }
          }
        }
        r
      else r
  }

  /**
   * IntEnumFieldMeta.__new__: every enum value must lie within
   * LIMITS[seg_y_type] (int16 by default), otherwise ValueError; the class is
   * then built by IntFieldMeta with ENUM set.
   */
  function DefineIntEnumField(name: string, enum: seq<EnumMember>, segYType: string := "int16",
                              minValue: Option<int> := None, maxValue: Option<int> := None)
    : (r: Result<FieldClass>)
    requires !IsFloatType(segYType)
    ensures segYType !in LIMITS ==> r == Err(KeyError)
    ensures segYType in LIMITS ==>
      (r.Ok? <==> forall m :: m in enum ==> LIMITS[segYType].min <= m.value <= LIMITS[segYType].max)
    ensures segYType in LIMITS && r.Err? ==> r.error == ValueError
    ensures r.Ok? ==> r.value.enum == Some(enum) && r.value.segYType == segYType
    ensures r.Ok? ==> DefineIntField(name, segYType, minValue, maxValue) == Ok(r.value.(enum := None))
  {
    LimitsFitCtypes();
    if segYType !in LIMITS then Err(KeyError)
    else if exists m :: m in enum && (m.value < LIMITS[segYType].min || m.value > LIMITS[segYType].max) then
      Err(ValueError)
    else
      var cls := DefineIntField(name, segYType, minValue, maxValue);
      if cls.Ok? then Ok(cls.value.(enum := Some(enum))) else cls
  }

  /**
   * Calling a field class: IntFieldMeta.class_new checks MINIMUM <= value <=
   * MAXIMUM; IntEnumFieldMeta.class_new instead returns ENUM(value), the
   * enum member with that value, which raises ValueError if there is none.
   */
  function Construct(cls: FieldClass, value: int): (r: Result<FieldValue>)
    ensures cls.enum.None? ==> (r.Ok? <==> cls.minimum <= value <= cls.maximum)
    ensures cls.enum.None? && r.Ok? ==> r.value == IntInstance(value)
    ensures cls.enum.Some? ==> (r.Ok? <==> exists m :: m in cls.enum.value && m.value == value)
    ensures cls.enum.Some? && r.Ok? ==>
      r.value.MemberInstance? && r.value.member in cls.enum.value && r.value.member.value == value
    ensures r.Err? ==> r.error == ValueError
  {
    match cls.enum
    case None =>
      if cls.minimum <= value <= cls.maximum then Ok(IntInstance(value)) else Err(ValueError)
    case Some(members) =>
      match LookupByValue(members, value)
      case Some(m) => Ok(MemberInstance(m))
      case None => Err(ValueError)
  }

  function Int16(): FieldClass { DefineIntField("Int16", "int16", None, None).value }
  function NNInt16(): FieldClass { DefineIntField("NNInt16", "nnint16", None, None).value }
  function Int32(): FieldClass { DefineIntField("Int32", "int32", None, None).value }
  function NNInt32(): FieldClass { DefineIntField("NNInt32", "nnint32", None, None).value }

  /** The four standard field classes take their ranges from LIMITS and are
      2 or 4 bytes wide. */
  lemma StandardFieldClasses()
    ensures Int16().minimum == -32768 && Int16().maximum == 32767 && Int16().size == 2
    ensures NNInt16().minimum == 0 && NNInt16().maximum == 32767 && NNInt16().size == 2
    ensures Int32().minimum == -2147483648 && Int32().maximum == 2147483647 && Int32().size == 4
    ensures NNInt32().minimum == 0 && NNInt32().maximum == 2147483647 && NNInt32().size == 4
    ensures Int16().enum.None? && NNInt16().enum.None? && Int32().enum.None? && NNInt32().enum.None?
  {
  }

  /** An instance of a successfully defined enum field lies within the LIMITS
      of the field's SEG-Y type. */
  lemma {:induction false} EnumInstanceWithinLimits(name: string, enum: seq<EnumMember>, segYType: string, value: int)
    requires !IsFloatType(segYType)
    requires DefineIntEnumField(name, enum, segYType).Ok?
    requires Construct(DefineIntEnumField(name, enum, segYType).value, value).Ok?
    ensures segYType in LIMITS && LIMITS[segYType].min <= value <= LIMITS[segYType].max
  {
    var cls := DefineIntEnumField(name, enum, segYType).value;
    var m :| m in cls.enum.value && m.value == value;
  }
}
