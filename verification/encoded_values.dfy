/** Translation of dex encoded values into the annotation-value and constant
    model of the class-file writer (section 4.7.16.1 of the Java Virtual
    Machine Specification, element_value).

    Two translators exist with different coverage:
    - `ToAsmValue` (field constants) accepts the nine constant kinds, the type
      kind and null, and fails on everything else;
    - `TransformValue` (annotation values) accepts nested annotations, arrays,
      enums, the eight primitives, strings and types, and fails on null, field
      and method references — although the reachability walk reads those. */
module EncodedValues {
  import opened Wrappers
  import opened Dex

  /** A field's constant value in the class-file writer's model; a type value
      becomes a type descriptor object. */
  datatype Constant =
    | ConstBoolean(b: bool)
    | ConstByte(i8: Int8)
    | ConstShort(i16: Int16)
    | ConstChar(c16: Char16)
    | ConstInt(i32: Int32)
    | ConstFloat(f32: bv32)
    | ConstLong(i64: Int64)
    | ConstDouble(f64: bv64)
    | ConstString(s: string)
    | ConstType(descriptor: string)

  /** An annotation element value as the writer's visitor receives it. */
  datatype AsmValue =
    | AsmConstant(constant: Constant)
    | AsmEnum(enumDescriptor: string, enumConstant: string)
    | AsmAnnotation(annotationDescriptor: string, values: seq<AsmMember>)
    | AsmArray(entries: seq<AsmValue>)

  datatype AsmMember = AsmMember(memberName: string, memberValue: AsmValue)

  /** A whole annotation: descriptor, runtime visibility, element values. */
  datatype AsmAnnotationNode = AsmAnnotationNode(descriptor: string, visible: bool, nodeValues: seq<AsmMember>)

  // ---------------------------------------------------------------------
  // Field constants: toAsmValue
  // ---------------------------------------------------------------------

  /** The kinds `toAsmValue` turns into a constant. */
  predicate IsConstantKind(v: EncodedValue) {
    || v.BooleanValue? || v.ByteValue? || v.ShortValue? || v.CharValue? || v.IntValue?
    || v.FloatValue? || v.LongValue? || v.DoubleValue? || v.StringValue? || v.TypeValue?
  }

  /** `toAsmValue`: a missing value and a null value both give no constant;
      the ten constant kinds map one-to-one; anything else fails. */
  function ToAsmValue(v: Option<EncodedValue>): (r: Result<Option<Constant>, Failure>)
    ensures r.Success? <==> v.None? || v.value.NullValue? || IsConstantKind(v.value)
    ensures r.Success? && r.value.None? <==> v.None? || v.value.NullValue?
    ensures r.Failure? ==> r.error == UnsupportedConstant
  {
    match v
    case None => Success(None)
    case Some(e) =>
      match e
      case BooleanValue(b) => Success(Some(ConstBoolean(b)))
      case ByteValue(x) => Success(Some(ConstByte(x)))
      case ShortValue(x) => Success(Some(ConstShort(x)))
      case CharValue(x) => Success(Some(ConstChar(x)))
      case IntValue(x) => Success(Some(ConstInt(x)))
      case FloatValue(x) => Success(Some(ConstFloat(x)))
      case LongValue(x) => Success(Some(ConstLong(x)))
      case DoubleValue(x) => Success(Some(ConstDouble(x)))
      case StringValue(x) => Success(Some(ConstString(x)))
      case TypeValue(x) => Success(Some(ConstType(x)))
      case NullValue => Success(None)
      case _ => Failure(UnsupportedConstant)
  }

  /** The dex value a constant stands for. */
  function FromConstant(c: Constant): EncodedValue {
    match c
    case ConstBoolean(b) => BooleanValue(b)
    case ConstByte(x) => ByteValue(x)
    case ConstShort(x) => ShortValue(x)
    case ConstChar(x) => CharValue(x)
    case ConstInt(x) => IntValue(x)
    case ConstFloat(x) => FloatValue(x)
    case ConstLong(x) => LongValue(x)
    case ConstDouble(x) => DoubleValue(x)
    case ConstString(x) => StringValue(x)
    case ConstType(x) => TypeValue(x)
  }

  /** A constant initializer is preserved exactly and with its kind: reading
      the translated constant back gives the original dex value. */
  lemma ConstantRoundTrip(v: EncodedValue)
    requires IsConstantKind(v)
    ensures ToAsmValue(Some(v)).Success? && ToAsmValue(Some(v)).value.Some?
    ensures FromConstant(ToAsmValue(Some(v)).value.value) == v
  {
  }

  /** Conversely every constant is the translation of exactly one dex value. */
  lemma ConstantSurjective(c: Constant)
    ensures ToAsmValue(Some(FromConstant(c))) == Success(Some(c))
  {
  }

  // ---------------------------------------------------------------------
  // Annotation values: transformEncodedValue
  // ---------------------------------------------------------------------

  /** The reference definition of the values `transformEncodedValue` accepts:
      every node of the tree is a nested annotation, an array, an enum, a
      primitive, a string or a type. */
  predicate Translatable(v: EncodedValue)
    decreases v
  {
    match v
    case NullValue => false
    case FieldValue(_) => false
    case MethodValue(_) => false
    case AnnotationValue(_, elements) =>
      forall i :: 0 <= i < |elements| ==> TranslatableElement(elements[i])
    case ArrayValue(items) =>
      forall i :: 0 <= i < |items| ==> Translatable(items[i])
    case _ => true
  }

  predicate TranslatableElement(e: Element)
    decreases e
  {
    Translatable(e.value)
  }

  /** `transformEncodedValue` for one value; the element name is applied by
      the caller as the member name. */
  function TransformValue(v: EncodedValue): (r: Result<AsmValue, Failure>)
    ensures r.Success? <==> Translatable(v)
    ensures r.Failure? ==> r.error == UnsupportedAnnotationValue
    decreases v, 1
  {
    match v
    case AnnotationValue(t, elements) =>
      var members :- TransformElements(v, elements);
      Success(AsmAnnotation(t, members))
    case ArrayValue(items) =>
      var entries :- TransformItems(v, items);
      Success(AsmArray(entries))
    case EnumValue(f) => Success(AsmEnum(f.fieldOwner, f.fieldName))
    case BooleanValue(b) => Success(AsmConstant(ConstBoolean(b)))
    case ByteValue(x) => Success(AsmConstant(ConstByte(x)))
    case CharValue(x) => Success(AsmConstant(ConstChar(x)))
    case DoubleValue(x) => Success(AsmConstant(ConstDouble(x)))
    case FloatValue(x) => Success(AsmConstant(ConstFloat(x)))
    case IntValue(x) => Success(AsmConstant(ConstInt(x)))
    case LongValue(x) => Success(AsmConstant(ConstLong(x)))
    case ShortValue(x) => Success(AsmConstant(ConstShort(x)))
    case StringValue(x) => Success(AsmConstant(ConstString(x)))
    case TypeValue(x) => Success(AsmConstant(ConstType(x)))
    case _ => Failure(UnsupportedAnnotationValue)
  }

  /** `transformAnnotationElement`: each element in order, under its name. */
  function TransformElements(ghost parent: EncodedValue, elements: seq<Element>): (r: Result<seq<AsmMember>, Failure>)
    requires forall i :: 0 <= i < |elements| ==> elements[i] < parent
    ensures r.Success? <==> forall i :: 0 <= i < |elements| ==> TranslatableElement(elements[i])
    ensures r.Success? ==> |r.value| == |elements|
    ensures r.Success? ==> forall i :: 0 <= i < |elements| ==>
      r.value[i] == AsmMember(elements[i].elementName, TransformValue(elements[i].value).value)
    ensures r.Failure? ==> r.error == UnsupportedAnnotationValue
    decreases parent, 0, |elements|
  {
    if |elements| == 0 then Success([])
    else
      var e := elements[0];
      assert e.value < e;
      var head :- TransformValue(e.value);
      var tail :- TransformElements(parent, elements[1..]);
      assert forall i :: 1 <= i < |elements| ==> elements[i] == elements[1..][i - 1];
      Success([AsmMember(e.elementName, head)] + tail)
  }

  /** The array case: each item in order. */
  function TransformItems(ghost parent: EncodedValue, items: seq<EncodedValue>): (r: Result<seq<AsmValue>, Failure>)
    requires forall i :: 0 <= i < |items| ==> items[i] < parent
    ensures r.Success? <==> forall i :: 0 <= i < |items| ==> Translatable(items[i])
    ensures r.Success? ==> |r.value| == |items|
    ensures r.Success? ==> forall i :: 0 <= i < |items| ==> r.value[i] == TransformValue(items[i]).value
    ensures r.Failure? ==> r.error == UnsupportedAnnotationValue
    decreases parent, 0, |items|
  {
    if |items| == 0 then Success([])
    else
      var head :- TransformValue(items[0]);
      var tail :- TransformItems(parent, items[1..]);
      assert forall i :: 1 <= i < |items| ==> items[i] == items[1..][i - 1];
      Success([head] + tail)
  }

  /** `isVisible`: the RUNTIME visibility bit (value 1) is set. Dafny's `%`
      is Euclidean, so `v % 2` is the low bit of `v` in two's complement for
      negative `v` as well. */
  predicate IsVisible(annotation: Annotation) {
    annotation.visibility % 2 == 1
  }

  /** A top-level annotation: its type, visibility and translated elements. */
  function TransformAnnotation(a: Annotation): (r: Result<AsmAnnotationNode, Failure>)
    ensures r.Success? <==> forall i :: 0 <= i < |a.members| ==> TranslatableElement(a.members[i])
    ensures r.Success? ==> r.value.descriptor == a.annotationType && |r.value.nodeValues| == |a.members|
    ensures r.Success? ==> r.value.visible == IsVisible(a)
    ensures r.Success? ==> forall i :: 0 <= i < |a.members| ==>
      r.value.nodeValues[i] == AsmMember(a.members[i].elementName, TransformValue(a.members[i].value).value)
  {
    var parent := AnnotationValue(a.annotationType, a.members);
    var members :- TransformElements(parent, a.members);
    Success(AsmAnnotationNode(a.annotationType, IsVisible(a), members))
  }

  // ---------------------------------------------------------------------
  // The inverse translation
  // ---------------------------------------------------------------------

  /** Reads an annotation value back as a dex value. The writer's enum value
      keeps only the enum's descriptor and constant name, so the field type
      is taken to be the enum's own type. */
  function Untransform(a: AsmValue): EncodedValue
    decreases a, 1
  {
    match a
    case AsmConstant(c) => FromConstant(c)
    case AsmEnum(d, n) => EnumValue(FieldRef(d, n, d))
    case AsmAnnotation(d, members) => AnnotationValue(d, UntransformMembers(a, members))
    case AsmArray(entries) => ArrayValue(UntransformEntries(a, entries))
  }

  function UntransformMembers(ghost parent: AsmValue, members: seq<AsmMember>): (r: seq<Element>)
    requires forall i :: 0 <= i < |members| ==> members[i] < parent
    ensures |r| == |members|
    ensures forall i :: 0 <= i < |members| ==> r[i] == Element(members[i].memberName, Untransform(members[i].memberValue))
    decreases parent, 0, |members|
  {
    if |members| == 0 then []
    else
      assert members[0].memberValue < members[0];
      [Element(members[0].memberName, Untransform(members[0].memberValue))] + UntransformMembers(parent, members[1..])
  }

  function UntransformEntries(ghost parent: AsmValue, entries: seq<AsmValue>): (r: seq<EncodedValue>)
    requires forall i :: 0 <= i < |entries| ==> entries[i] < parent
    ensures |r| == |entries|
    ensures forall i :: 0 <= i < |entries| ==> r[i] == Untransform(entries[i])
    decreases parent, 0, |entries|
  {
    if |entries| == 0 then [] else [Untransform(entries[0])] + UntransformEntries(parent, entries[1..])
  }

  /** Enum references whose field type is the enum's own type, as every enum
      constant's is. */
  predicate CanonicalEnums(v: EncodedValue)
    decreases v
  {
    match v
    case EnumValue(f) => f.fieldType == f.fieldOwner
    case AnnotationValue(_, elements) =>
      forall i :: 0 <= i < |elements| ==> CanonicalEnumsElement(elements[i])
    case ArrayValue(items) =>
      forall i :: 0 <= i < |items| ==> CanonicalEnums(items[i])
    case _ => true
  }

  predicate CanonicalEnumsElement(e: Element)
    decreases e
  {
    CanonicalEnums(e.value)
  }

  /** The translation loses nothing but the enum field type: reading a
      translated value back gives the original value. */
  lemma {:induction false} TransformRoundTrip(v: EncodedValue)
    requires Translatable(v) && CanonicalEnums(v)
    ensures Untransform(TransformValue(v).value) == v
    decreases v, 1
  {
    if v.AnnotationValue? {
      AnnotationRoundTrip(v);
    } else if v.ArrayValue? {
      ArrayRoundTrip(v);
    } else {
      ScalarRoundTrip(v);
    }
  }

  /** The round trip of a nested annotation, given that of its elements. */
  lemma {:induction false} AnnotationRoundTrip(v: EncodedValue)
    requires v.AnnotationValue? && Translatable(v) && CanonicalEnums(v)
    ensures Untransform(TransformValue(v).value) == v
    decreases v, 0
  {
    var elements := v.elements;
    var members := TransformElements(v, elements).value;
    var back := UntransformMembers(TransformValue(v).value, members);
    forall i | 0 <= i < |elements| ensures back[i] == elements[i] {
      assert elements[i] < v;
      assert elements[i].value < elements[i];
      assert TranslatableElement(elements[i]) && CanonicalEnumsElement(elements[i]);
      TransformRoundTrip(elements[i].value);
    }
    assert back == elements;
  }

  /** The round trip of an array, given that of its items. */
  lemma {:induction false} ArrayRoundTrip(v: EncodedValue)
    requires v.ArrayValue? && Translatable(v) && CanonicalEnums(v)
    ensures Untransform(TransformValue(v).value) == v
    decreases v, 0
  {
    var items := v.items;
    var entries := TransformItems(v, items).value;
    var back := UntransformEntries(TransformValue(v).value, entries);
    forall i | 0 <= i < |items| ensures back[i] == items[i] {
      assert items[i] < v;
      TransformRoundTrip(items[i]);
    }
    assert back == items;
  }

  /** The round trip of a value that holds no other value. */
  lemma ScalarRoundTrip(v: EncodedValue)
    requires !v.AnnotationValue? && !v.ArrayValue? && Translatable(v) && CanonicalEnums(v)
    ensures Untransform(TransformValue(v).value) == v
  {
  }
}
