/** The already-decoded dex records the extractor reads: classes, fields,
    methods, parameters, annotations and the encoded-value tree. They stand for
    the read-only interfaces of the dex reader; nothing here decodes bytes. */
module Dex {
  import opened Wrappers

  /** Java's fixed-width integers, as the dex reader hands them out. */
  type Int8 = x: int | -0x80 <= x < 0x80
  type Int16 = x: int | -0x8000 <= x < 0x8000
  type Char16 = x: int | 0 <= x < 0x1_0000
  type Int32 = x: int | -0x8000_0000 <= x < 0x8000_0000
  type Int64 = x: int | -0x8000_0000_0000_0000 <= x < 0x8000_0000_0000_0000

  /** A bit position in Java's 32-bit `int` access-flag word. */
  type Bit = b: nat | b < 32

  /** Java's `int` access-flag word, as the set of the positions of its one
      bits. Testing, setting and clearing single bits (all the extractor does
      with the word) are membership, union and difference. */
  type Flags = set<Bit>

  /** A field reference: defining class, name and field type descriptor. */
  datatype FieldRef = FieldRef(fieldOwner: string, fieldName: string, fieldType: string)

  /** A method reference: defining class, name, parameter and return types. */
  datatype MethodRef = MethodRef(
    methodOwner: string,
    methodName: string,
    parameterTypes: seq<string>,
    returnType: string)

  /** The closed tagged union of dex encoded values. Float and double payloads
      are carried as opaque bit patterns. */
  datatype EncodedValue =
    | BooleanValue(boolPayload: bool)
    | ByteValue(bytePayload: Int8)
    | ShortValue(shortPayload: Int16)
    | CharValue(charPayload: Char16)
    | IntValue(intPayload: Int32)
    | LongValue(longPayload: Int64)
    | FloatValue(floatBits: bv32)
    | DoubleValue(doubleBits: bv64)
    | StringValue(stringPayload: string)
    | TypeValue(typePayload: string)
    | NullValue
    | EnumValue(enumField: FieldRef)
    | FieldValue(fieldPayload: FieldRef)
    | MethodValue(methodPayload: MethodRef)
    | AnnotationValue(annotationType: string, elements: seq<Element>)
    | ArrayValue(items: seq<EncodedValue>)

  /** One `name = value` pair of an annotation. */
  datatype Element = Element(elementName: string, value: EncodedValue)

  /** An annotation as attached to a class, member or parameter. */
  datatype Annotation = Annotation(visibility: int, annotationType: string, members: seq<Element>)

  /** Hidden-API restriction categories; only the whitelist is told apart. */
  datatype Restriction = Whitelist | Restricted(category: string)

  /** The one opcode the extractor looks for in a method body. */
  datatype Opcode = MonitorEnter | OtherOpcode(mnemonic: string)

  /** Debug-info items; only `StartLocal` carries data the extractor reads. */
  datatype DebugItem =
    | StartLocal(register: int, localName: Option<string>, localType: Option<string>, localSignature: Option<string>)
    | OtherDebugItem

  datatype Implementation = Implementation(registerCount: int, instructions: seq<Opcode>, debugItems: seq<DebugItem>)

  datatype Parameter = Parameter(
    paramType: string,
    paramName: Option<string>,
    paramSignature: Option<string>,
    paramAnnotations: seq<Annotation>)

  datatype Field = Field(
    fieldClass: string,
    fieldName: string,
    fieldType: string,
    fieldFlags: Flags,
    fieldAnnotations: seq<Annotation>,
    initialValue: Option<EncodedValue>,
    fieldRestrictions: set<Restriction>)

  datatype Method = Method(
    methodClass: string,
    methodName: string,
    parameters: seq<Parameter>,
    returnType: string,
    methodFlags: Flags,
    methodAnnotations: seq<Annotation>,
    implementation: Option<Implementation>,
    methodRestrictions: set<Restriction>)

  datatype ClassDef = ClassDef(
    classType: string,
    classFlags: Flags,
    superclass: Option<string>,
    interfaces: seq<string>,
    classAnnotations: seq<Annotation>,
    fields: seq<Field>,
    methods: seq<Method>)

  /** The exceptions the extractor can throw; every one aborts the run. */
  datatype Failure =
    | WrongElementCount(count: nat)            // AssertionError(size)
    | WrongElementName(name: string)           // AssertionError(name)
    | ClassCast(expected: string)              // ClassCastException
    | UnsupportedConstant                      // AssertionError in toAsmValue
    | UnsupportedAnnotationValue               // IllegalArgumentException
    | StringIndexOutOfBounds                   // substring out of range
}
