/** Flag normalisation and member filtering: which classes, fields and methods
    are emitted, and with which access flags, constant values and metadata.

    Two pieces of flag arithmetic matter. Dex's declared-synchronized bit
    (0x20000) is the bit ASM reads as its deprecated pseudo flag, so every
    flag word the extractor emits has its deprecated bit recomputed from the
    annotations, which strips the raw dex bit. And ACC_SYNCHRONIZED is only
    ever added, for a declared-synchronized method whose body enters a
    monitor. */
module Members {
  import opened Wrappers
  import opened Dex
  import opened AccessFlags
  import opened TypeUtils
  import opened EncodedValues

  // ---------------------------------------------------------------------
  // Class flags: getAndFixDexAccessFlags
  // ---------------------------------------------------------------------

  /** `isDeprecated`: a `java.lang.Deprecated` annotation is present. */
  function IsDeprecated(annotations: seq<Annotation>): (r: bool)
    ensures r <==> FirstOfType(annotations, TYPE_DEPRECATED).Some?
    ensures r <==> exists a :: a in annotations && a.annotationType == TYPE_DEPRECATED
  {
    HasAnnotationOfType(annotations, TYPE_DEPRECATED)
  }

  /** `isRecord`: a dalvik Record annotation is present. */
  predicate IsRecord(c: ClassDef) {
    HasAnnotationOfType(c.classAnnotations, TYPE_DALVIK_RECORD)
  }

  /** The bits the class-flag normalisation may change. */
  const NORMALISED_CLASS_BITS: set<Bit> := {ACC_SUPER, ACC_RECORD, ACC_DEPRECATED}

  /** The bit arithmetic of `getAndFixDexAccessFlags`, given the two
      annotation tests. */
  function NormaliseClassBits(flags: Flags, isRecord: bool, deprecated: bool): (r: Flags)
    ensures Has(r, ACC_SUPER) <==> Has(flags, ACC_SUPER) || !Has(flags, ACC_INTERFACE)
    ensures Has(r, ACC_RECORD) <==> Has(flags, ACC_RECORD) || isRecord
    ensures Has(r, ACC_DEPRECATED) <==> deprecated
    ensures r - NORMALISED_CLASS_BITS == flags - NORMALISED_CLASS_BITS
  {
    var withSuper := if !Has(flags, ACC_INTERFACE) then flags + {ACC_SUPER} else flags;
    var withRecord := if isRecord then withSuper + {ACC_RECORD} else withSuper;
    RecomputeDeprecated(withRecord, deprecated)
  }

  /** `getAndFixDexAccessFlags`: ACC_SUPER added unless the class is an
      interface, ACC_RECORD added for a record, the deprecated bit set
      exactly for a deprecated class; every other bit as in the dex word. */
  function FixClassFlags(c: ClassDef): (r: Flags)
    ensures Has(r, ACC_SUPER) <==> Has(c.classFlags, ACC_SUPER) || !Has(c.classFlags, ACC_INTERFACE)
    ensures Has(r, ACC_RECORD) <==> Has(c.classFlags, ACC_RECORD) || IsRecord(c)
    ensures Has(r, ACC_DEPRECATED) <==> IsDeprecated(c.classAnnotations)
    ensures r - NORMALISED_CLASS_BITS == c.classFlags - NORMALISED_CLASS_BITS
  {
    NormaliseClassBits(c.classFlags, IsRecord(c), IsDeprecated(c.classAnnotations))
  }

  /** Normalising an already normalised word changes nothing. */
  lemma FixClassFlagsIdempotent(c: ClassDef)
    ensures FixClassFlags(c.(classFlags := FixClassFlags(c))) == FixClassFlags(c)
  {
    var f := FixClassFlags(c);
    var g := FixClassFlags(c.(classFlags := f));
    assert Has(f, ACC_INTERFACE) == Has(c.classFlags, ACC_INTERFACE) by {
      assert ACC_INTERFACE in f <==> ACC_INTERFACE in f - NORMALISED_CLASS_BITS;
      assert ACC_INTERFACE in c.classFlags <==> ACC_INTERFACE in c.classFlags - NORMALISED_CLASS_BITS;
    }
  }

  /** Normalisation never changes whether a class is accessible. */
  lemma FixClassFlagsKeepsAccess(c: ClassDef)
    ensures IsInaccessible(FixClassFlags(c)) == IsInaccessible(c.classFlags)
  {
    var f := FixClassFlags(c);
    assert f * ACCESS_BITS == c.classFlags * ACCESS_BITS by {
      assert f * ACCESS_BITS == (f - NORMALISED_CLASS_BITS) * ACCESS_BITS;
      assert c.classFlags * ACCESS_BITS == (c.classFlags - NORMALISED_CLASS_BITS) * ACCESS_BITS;
    }
    InaccessibleReadsThreeBits(f, c.classFlags);
  }

  // ---------------------------------------------------------------------
  // Methods inherited from java.lang.Object
  // ---------------------------------------------------------------------

  /** The parameter type descriptors of a method, in order. */
  function ParameterTypes(m: Method): (r: seq<string>)
    ensures |r| == |m.parameters|
    ensures forall i :: 0 <= i < |r| ==> r[i] == m.parameters[i].paramType
  {
    seq(|m.parameters|, i requires 0 <= i < |m.parameters| => m.parameters[i].paramType)
  }

  /** A method signature: name, parameter types and return type. */
  datatype Signature = Signature(name: string, parameterTypes: seq<string>, returnType: string)

  /** The five overridable methods of `java.lang.Object` the stubs leave out. */
  const OBJECT_METHODS: seq<Signature> := [
    Signature("clone", [], TYPE_OBJECT),
    Signature("equals", [TYPE_OBJECT], "Z"),
    Signature("finalize", [], "V"),
    Signature("hashCode", [], "I"),
    Signature("toString", [], TYPE_STRING)
  ]

  /** `isObjectMethod`: a non-static method outside `java.lang.Object` whose
      name, parameter count, parameter type and return type are those of
      clone, equals, finalize, hashCode or toString. It recognises exactly
      the non-static redeclarations, in a class other than Object, of the
      five signatures in the table. */
  function IsObjectMethod(m: Method): (r: bool)
    ensures r <==>
      && !Has(m.methodFlags, ACC_STATIC)
      && m.methodClass != TYPE_OBJECT
      && Signature(m.methodName, ParameterTypes(m), m.returnType) in OBJECT_METHODS
  {
    var ps := ParameterTypes(m);
    assert |ps| == 0 <==> ps == [];
    assert (|ps| == 1 && ps[0] == TYPE_OBJECT) <==> ps == [TYPE_OBJECT];
    if Has(m.methodFlags, ACC_STATIC) then false
    else if m.methodClass == TYPE_OBJECT then false
    else
      match m.methodName
      case "clone" => |ps| == 0 && m.returnType == TYPE_OBJECT
      case "equals" => |ps| == 1 && ps[0] == TYPE_OBJECT && m.returnType == "Z"
      case "finalize" => |ps| == 0 && m.returnType == "V"
      case "hashCode" => |ps| == 0 && m.returnType == "I"
      case "toString" => |ps| == 0 && m.returnType == TYPE_STRING
      case _ => false
  }

  // ---------------------------------------------------------------------
  // The member filters
  // ---------------------------------------------------------------------

  /** The method filter of `transformMethod`. */
  predicate MethodEmitted(m: Method) {
    && !IsInaccessible(m.methodFlags)
    && !Has(m.methodFlags, ACC_BRIDGE)
    && !IsObjectMethod(m)
    && m.methodName != "<clinit>"
  }

  /** The field filter of `transformField`. */
  predicate FieldEmitted(f: Field) {
    !IsInaccessible(f.fieldFlags)
  }

  /** The members kept by a filter, in their original order. */
  function Filter<T(!new)>(keep: T -> bool, s: seq<T>): (r: seq<T>)
    ensures |r| <= |s|
    ensures forall x :: x in r <==> x in s && keep(x)
  {
    if |s| == 0 then []
    else if keep(s[0]) then [s[0]] + Filter(keep, s[1..])
    else Filter(keep, s[1..])
  }

  /** Filtering distributes over concatenation: the emitted members keep the
      order of the dex class. */
  lemma {:induction false} FilterAppend<T(!new)>(keep: T -> bool, a: seq<T>, b: seq<T>)
    ensures Filter(keep, a + b) == Filter(keep, a) + Filter(keep, b)
    decreases |a|
  {
    if |a| > 0 {
      assert (a + b)[0] == a[0];
      assert (a + b)[1..] == a[1..] + b;
      FilterAppend(keep, a[1..], b);
    } else {
      assert a + b == b;
    }
  }

  /** The methods of a class the stub keeps, in dex order. */
  function EmittedMethods(c: ClassDef): (r: seq<Method>)
    ensures forall m :: m in r <==> m in c.methods && MethodEmitted(m)
  {
    Filter(MethodEmitted, c.methods)
  }

  /** The fields of a class the stub keeps, in dex order. */
  function EmittedFields(c: ClassDef): (r: seq<Field>)
    ensures forall f :: f in r <==> f in c.fields && FieldEmitted(f)
  {
    Filter(FieldEmitted, c.fields)
  }

  /** Bridges, class initialisers and the Object overrides are never kept. */
  lemma DroppedMethods(c: ClassDef, m: Method)
    requires m in c.methods
    requires Has(m.methodFlags, ACC_BRIDGE) || m.methodName == "<clinit>" || IsInaccessible(m.methodFlags)
      || (!Has(m.methodFlags, ACC_STATIC) && m.methodClass != TYPE_OBJECT
          && Signature(m.methodName, ParameterTypes(m), m.returnType) in OBJECT_METHODS)
    ensures m !in EmittedMethods(c)
  {
  }

  // ---------------------------------------------------------------------
  // Method flags
  // ---------------------------------------------------------------------

  /** The loop over the instructions: stops at the first MONITOR_ENTER. */
  method HasMonitorEnter(instructions: seq<Opcode>) returns (found: bool)
    ensures found <==> MonitorEnter in instructions
  {
    found := false;
    var i := 0;
    while i < |instructions|
      invariant 0 <= i <= |instructions|
      invariant !found
      invariant MonitorEnter !in instructions[..i]
    {
      if instructions[i] != MonitorEnter {
        i := i + 1;
        continue;
      }
      found := true;
      return;
    }
    assert instructions[..i] == instructions;
  }

  /** The condition under which ACC_SYNCHRONIZED is added: a body, the raw dex
      declared-synchronized bit, and a MONITOR_ENTER in the body. */
  predicate AddsSynchronized(m: Method) {
    && m.implementation.Some?
    && Has(m.methodFlags, DEX_DECLARED_SYNCHRONIZED)
    && MonitorEnter in m.implementation.value.instructions
  }

  const RECOMPUTED_METHOD_BITS: set<Bit> := {ACC_DEPRECATED, ACC_SYNCHRONIZED}

  /** The bit arithmetic of the method flags, given the two tests. */
  function MethodBits(flags: Flags, deprecated: bool, addsSynchronized: bool): (r: Flags)
    ensures Has(r, ACC_DEPRECATED) <==> deprecated
    ensures Has(r, ACC_SYNCHRONIZED) <==> Has(flags, ACC_SYNCHRONIZED) || addsSynchronized
    ensures r - RECOMPUTED_METHOD_BITS == flags - RECOMPUTED_METHOD_BITS
  {
    var recomputed := RecomputeDeprecated(flags, deprecated);
    if addsSynchronized then recomputed + {ACC_SYNCHRONIZED} else recomputed
  }

  /** The flags `transformMethod` passes to `visitMethod`. */
  function MethodFlags(m: Method): (r: Flags)
    ensures Has(r, ACC_DEPRECATED) <==> IsDeprecated(m.methodAnnotations)
    ensures Has(r, ACC_SYNCHRONIZED) <==> Has(m.methodFlags, ACC_SYNCHRONIZED) || AddsSynchronized(m)
    ensures r - RECOMPUTED_METHOD_BITS == m.methodFlags - RECOMPUTED_METHOD_BITS
  {
    MethodBits(m.methodFlags, IsDeprecated(m.methodAnnotations), AddsSynchronized(m))
  }

  /** The statements of `transformMethod` that compute the flags: the
      deprecated bit set or cleared, then the instruction scan of a
      declared-synchronized body. They compute `MethodFlags`. */
  method ComputeMethodFlags(m: Method) returns (flags: Flags)
    ensures flags == MethodFlags(m)
    ensures Has(flags, ACC_SYNCHRONIZED) <==> Has(m.methodFlags, ACC_SYNCHRONIZED) || AddsSynchronized(m)
  {
    flags := m.methodFlags;
    if IsDeprecated(m.methodAnnotations) {
      flags := flags + {ACC_DEPRECATED};
    } else {
      flags := flags - {ACC_DEPRECATED};
    }
    if m.implementation.Some? && Has(m.methodFlags, DEX_DECLARED_SYNCHRONIZED) {
      var found := HasMonitorEnter(m.implementation.value.instructions);
      if found {
        flags := flags + {ACC_SYNCHRONIZED};
      }
    }
  }

  /** The bit collision: a declared-synchronized dex method without a
      Deprecated annotation is not emitted as deprecated, and one with a
      monitor is emitted synchronized. */
  lemma DeclaredSynchronizedBecomesSynchronized(m: Method)
    requires Has(m.methodFlags, DEX_DECLARED_SYNCHRONIZED) && !IsDeprecated(m.methodAnnotations)
    requires m.implementation.Some? && MonitorEnter in m.implementation.value.instructions
    ensures !Has(MethodFlags(m), ACC_DEPRECATED) && Has(MethodFlags(m), ACC_SYNCHRONIZED)
  {
  }

  /** ACC_SYNCHRONIZED is only ever added: a raw synchronized bit survives. */
  lemma SynchronizedNeverCleared(m: Method)
    ensures Has(m.methodFlags, ACC_SYNCHRONIZED) ==> Has(MethodFlags(m), ACC_SYNCHRONIZED)
    ensures !Has(m.methodFlags, DEX_DECLARED_SYNCHRONIZED) ==>
      (Has(MethodFlags(m), ACC_SYNCHRONIZED) <==> Has(m.methodFlags, ACC_SYNCHRONIZED))
  {
  }

  /** The recompute keeps accessibility, so the filter reads the same answer
      from the raw and the emitted flags. */
  lemma MethodFlagsKeepAccess(m: Method)
    ensures IsInaccessible(MethodFlags(m)) == IsInaccessible(m.methodFlags)
  {
    var f := MethodFlags(m);
    assert f * ACCESS_BITS == m.methodFlags * ACCESS_BITS by {
      assert f * ACCESS_BITS == (f - RECOMPUTED_METHOD_BITS) * ACCESS_BITS;
      assert m.methodFlags * ACCESS_BITS == (m.methodFlags - RECOMPUTED_METHOD_BITS) * ACCESS_BITS;
    }
    InaccessibleReadsThreeBits(f, m.methodFlags);
  }

  // ---------------------------------------------------------------------
  // Fields
  // ---------------------------------------------------------------------

  const INTERNAL_R_PREFIX := "Lcom/android/internal/R$"

  /** Whether `transformField` reads the initial value at all: final fields
      outside the internal resource-id classes. */
  predicate ReadsConstant(f: Field) {
    Has(f.fieldFlags, ACC_FINAL) && !StartsWith(f.fieldClass, INTERNAL_R_PREFIX)
  }

  /** The constant value of an emitted field. */
  function FieldConstant(f: Field): (r: Result<Option<Constant>, Failure>)
    ensures !ReadsConstant(f) ==> r == Success(None)
    ensures r.Failure? <==>
      ReadsConstant(f) && f.initialValue.Some? && !f.initialValue.value.NullValue? && !IsConstantKind(f.initialValue.value)
    ensures r.Success? && r.value.Some? ==> ReadsConstant(f) && f.initialValue == Some(FromConstant(r.value.value))
    ensures ReadsConstant(f) && f.initialValue.Some? && IsConstantKind(f.initialValue.value) ==>
      r.Success? && r.value.Some? && FromConstant(r.value.value) == f.initialValue.value
    ensures ReadsConstant(f) && (f.initialValue.None? || f.initialValue.value.NullValue?) ==> r == Success(None)
  {
    if ReadsConstant(f) then
      var r := ToAsmValue(f.initialValue);
      if r.Success? && r.value.Some? then
        ConstantRoundTrip(f.initialValue.value);
        r
      else r
    else Success(None)
  }

  /** A hidden-API restriction annotation is attached when the set is
      non-empty and does not contain the whitelist. */
  predicate RestrictionsShown(restrictions: set<Restriction>) {
    restrictions != {} && Whitelist !in restrictions
  }

  /** The annotations kept on a member, translated in order. */
  function TransformAnnotations(annotations: seq<Annotation>): (r: Result<seq<AsmAnnotationNode>, Failure>)
    ensures r.Success? <==> forall i :: 0 <= i < |annotations| ==> TransformAnnotation(annotations[i]).Success?
    ensures r.Success? ==> |r.value| == |annotations|
    ensures r.Success? ==> forall i :: 0 <= i < |annotations| ==> r.value[i] == TransformAnnotation(annotations[i]).value
  {
    if |annotations| == 0 then Success([])
    else
      var head :- TransformAnnotation(annotations[0]);
      var tail :- TransformAnnotations(annotations[1..]);
      assert forall i :: 1 <= i < |annotations| ==> annotations[i] == annotations[1..][i - 1];
      Success([head] + tail)
  }

  function OmitType(annotations: seq<Annotation>, skipped: set<string>): (r: seq<Annotation>)
    ensures forall a :: a in r <==> a in annotations && a.annotationType !in skipped
  {
    Filter((a: Annotation) => a.annotationType !in skipped, annotations)
  }

  /** The field as the class-file writer receives it. */
  datatype FieldNode = FieldNode(
    access: Flags,
    name: string,
    descriptor: string,
    signature: Option<string>,
    constantValue: Option<Constant>,
    annotations: seq<AsmAnnotationNode>,
    restrictions: Option<set<Restriction>>)

  /** `transformField` and `transformFieldAnnotation`: no node for a filtered
      field, otherwise the field's recomputed flags, name, type, signature,
      constant, non-Signature annotations and, for a field without an initial
      value, its shown restrictions. */
  function TransformField(f: Field): (r: Result<Option<FieldNode>, Failure>)
    ensures !FieldEmitted(f) ==> r == Success(None)
    ensures FieldEmitted(f) && FieldConstant(f).Failure? ==> r.Failure?
    ensures FieldEmitted(f) ==>
      (r.Success? <==>
        && FieldConstant(f).Success?
        && GetSignature(f.fieldAnnotations).Success?
        && TransformAnnotations(OmitType(f.fieldAnnotations, {TYPE_DALVIK_SIGNATURE})).Success?)
    ensures FieldEmitted(f) && r.Success? ==> r.value.Some?
    ensures r.Success? && r.value.Some? ==>
      var node := r.value.value;
      && FieldEmitted(f)
      && node.access == RecomputeDeprecated(f.fieldFlags, IsDeprecated(f.fieldAnnotations))
      && node.name == f.fieldName && node.descriptor == f.fieldType
      && GetSignature(f.fieldAnnotations) == Success(node.signature)
      && node.constantValue == FieldConstant(f).value
      && TransformAnnotations(OmitType(f.fieldAnnotations, {TYPE_DALVIK_SIGNATURE})) == Success(node.annotations)
      && (node.restrictions.Some? <==> f.initialValue.None? && RestrictionsShown(f.fieldRestrictions))
      && (node.restrictions.Some? ==> node.restrictions.value == f.fieldRestrictions)
    ensures r.Success? && r.value.Some? && ReadsConstant(f) && f.initialValue.Some? && IsConstantKind(f.initialValue.value) ==>
      r.value.value.constantValue.Some? && FromConstant(r.value.value.constantValue.value) == f.initialValue.value
    ensures r.Success? && r.value.Some? && !ReadsConstant(f) ==> r.value.value.constantValue.None?
  {
    if !FieldEmitted(f) then Success(None)
    else
      var constant :- FieldConstant(f);
      var signature :- GetSignature(f.fieldAnnotations);
      var annotations :- TransformAnnotations(OmitType(f.fieldAnnotations, {TYPE_DALVIK_SIGNATURE}));
      var shown := f.initialValue.None? && RestrictionsShown(f.fieldRestrictions);
      Success(Some(FieldNode(
        RecomputeDeprecated(f.fieldFlags, IsDeprecated(f.fieldAnnotations)),
        f.fieldName, f.fieldType, signature, constant, annotations,
        if shown then Some(f.fieldRestrictions) else None)))
  }

  // ---------------------------------------------------------------------
  // Methods
  // ---------------------------------------------------------------------

  /** What one AnnotationDefault annotation says about the method `name`: its
      single `value` element must hold a nested annotation, and the first
      element of that annotation named `name`, translated, is the default;
      an annotation without such an element says nothing. */
  function DefaultIn(a: Annotation, name: string): (r: Result<Option<AsmValue>, Failure>)
    ensures r.Success? <==>
      && SingleValue(a).Success? && SingleValue(a).value.AnnotationValue?
      && var e := FirstElementNamed(SingleValue(a).value.elements, name);
         e.Some? ==> TransformValue(e.value.value).Success?
    ensures r.Success? ==>
      var e := FirstElementNamed(SingleValue(a).value.elements, name);
      && (r.value.None? <==> e.None?)
      && (r.value.Some? ==> r.value.value == TransformValue(e.value.value).value)
  {
    var v :- SingleValue(a);
    if !v.AnnotationValue? then Failure(ClassCast("AnnotationEncodedValue"))
    else match FirstElementNamed(v.elements, name)
      case Some(e) =>
        var value :- TransformValue(e.value);
        Success(Some(value))
      case None => Success(None)
  }

  /** The annotation default of an annotation-interface method: the labelled
      loop over the class's annotations stops at the first AnnotationDefault
      annotation that fails or has an element of the method's name. */
  function AnnotationDefault(annotations: seq<Annotation>, name: string): (r: Result<Option<AsmValue>, Failure>)
    ensures !HasAnnotationOfType(annotations, TYPE_DALVIK_ANNOTATION_DEFAULT) ==> r == Success(None)
    ensures r.Success? && r.value.Some? ==>
      exists i :: 0 <= i < |annotations| && annotations[i].annotationType == TYPE_DALVIK_ANNOTATION_DEFAULT
    ensures r == Success(None) <==>
      forall i :: 0 <= i < |annotations| && annotations[i].annotationType == TYPE_DALVIK_ANNOTATION_DEFAULT ==>
        DefaultIn(annotations[i], name) == Success(None)
    ensures r != Success(None) ==>
      exists i :: 0 <= i < |annotations| && DecidesDefault(annotations, name, i) && r == DefaultIn(annotations[i], name)
  {
    if |annotations| == 0 then Success(None)
    else
      var rest := AnnotationDefault(annotations[1..], name);
      assert forall i :: 1 <= i < |annotations| ==> annotations[i] == annotations[1..][i - 1];
      if annotations[0].annotationType != TYPE_DALVIK_ANNOTATION_DEFAULT || DefaultIn(annotations[0], name) == Success(None) then
        DecidesDefaultLift(annotations, name, rest);
        rest
      else
        assert DecidesDefault(annotations, name, 0);
        DefaultIn(annotations[0], name)
  }

  /** Annotation `i` is the one the loop stops at: an AnnotationDefault
      annotation after which no earlier one had a say. */
  ghost predicate DecidesDefault(annotations: seq<Annotation>, name: string, i: int)
    requires 0 <= i < |annotations|
  {
    && annotations[i].annotationType == TYPE_DALVIK_ANNOTATION_DEFAULT
    && DefaultIn(annotations[i], name) != Success(None)
    && forall j :: 0 <= j < i && annotations[j].annotationType == TYPE_DALVIK_ANNOTATION_DEFAULT ==>
         DefaultIn(annotations[j], name) == Success(None)
  }

  /** When annotation 0 has no say, the annotation deciding the rest decides
      the whole list. */
  lemma DecidesDefaultLift(annotations: seq<Annotation>, name: string, rest: Result<Option<AsmValue>, Failure>)
    requires |annotations| > 0
    requires annotations[0].annotationType != TYPE_DALVIK_ANNOTATION_DEFAULT || DefaultIn(annotations[0], name) == Success(None)
    requires rest != Success(None) ==>
      exists k :: 0 <= k < |annotations[1..]| && DecidesDefault(annotations[1..], name, k) && rest == DefaultIn(annotations[1..][k], name)
    ensures rest != Success(None) ==>
      exists i :: 0 <= i < |annotations| && DecidesDefault(annotations, name, i) && rest == DefaultIn(annotations[i], name)
  {
    if rest != Success(None) {
      var k :| 0 <= k < |annotations[1..]| && DecidesDefault(annotations[1..], name, k) && rest == DefaultIn(annotations[1..][k], name);
      forall j | 0 <= j < k + 1 && annotations[j].annotationType == TYPE_DALVIK_ANNOTATION_DEFAULT
        ensures DefaultIn(annotations[j], name) == Success(None)
      {
        if j > 0 {
          assert annotations[j] == annotations[1..][j - 1];
        }
      }
      assert DecidesDefault(annotations, name, k + 1);
    }
  }

  /** The first element with the given name. */
  function FirstElementNamed(elements: seq<Element>, name: string): (r: Option<Element>)
    ensures r.None? <==> forall i :: 0 <= i < |elements| ==> elements[i].elementName != name
    ensures r.Some? ==> r.value in elements && r.value.elementName == name
    ensures r.Some? ==>
      exists i :: 0 <= i < |elements| && elements[i] == r.value
        && forall j :: 0 <= j < i ==> elements[j].elementName != name
  {
    if |elements| == 0 then None
    else if elements[0].elementName == name then
      assert elements[0] == elements[0];
      Some(elements[0])
    else
      var r := FirstElementNamed(elements[1..], name);
      assert forall i :: 1 <= i < |elements| ==> elements[i] == elements[1..][i - 1];
      if r.Some? then
        var i :| 0 <= i < |elements[1..]| && elements[1..][i] == r.value
          && (forall j :: 0 <= j < i ==> elements[1..][j].elementName != name);
        assert elements[i + 1] == r.value;
        r
      else r
  }

  /** The method as the class-file writer receives it; the code is produced
      by the stub-body model. */
  datatype MethodNode = MethodNode(
    access: Flags,
    name: string,
    descriptor: string,
    signature: Option<string>,
    exceptions: Option<seq<string>>,
    annotationDefault: Option<AsmValue>,
    annotations: seq<AsmAnnotationNode>,
    restrictions: Option<set<Restriction>>,
    hasCode: bool)

  /** The dalvik annotations a method's metadata is read from, which are not
      copied as annotations. */
  const METHOD_METADATA: set<string> := {TYPE_DALVIK_SIGNATURE, TYPE_DALVIK_THROWS, TYPE_DALVIK_METHOD_PARAMETERS}

  /** `transformMethod` and `transformMethodAnnotation` for a method of class
      `c`. */
  function TransformMethod(c: ClassDef, m: Method): (r: Result<Option<MethodNode>, Failure>)
    ensures !MethodEmitted(m) ==> r == Success(None)
    ensures MethodEmitted(m) ==>
      (r.Success? <==>
        && GetSignature(m.methodAnnotations).Success?
        && GetExceptions(m.methodAnnotations).Success?
        && (Has(c.classFlags, ACC_ANNOTATION) ==> AnnotationDefault(c.classAnnotations, m.methodName).Success?)
        && TransformAnnotations(OmitType(m.methodAnnotations, METHOD_METADATA)).Success?)
    ensures MethodEmitted(m) && r.Success? ==> r.value.Some?
    ensures r.Success? && r.value.Some? ==>
      var node := r.value.value;
      && MethodEmitted(m)
      && node.access == MethodFlags(m)
      && node.name == m.methodName
      && node.descriptor == MethodDescriptor(ParameterTypes(m), m.returnType)
      && GetSignature(m.methodAnnotations) == Success(node.signature)
      && GetExceptions(m.methodAnnotations) == Success(node.exceptions)
      && (!Has(c.classFlags, ACC_ANNOTATION) ==> node.annotationDefault.None?)
      && (Has(c.classFlags, ACC_ANNOTATION) ==> AnnotationDefault(c.classAnnotations, m.methodName) == Success(node.annotationDefault))
      && TransformAnnotations(OmitType(m.methodAnnotations, METHOD_METADATA)) == Success(node.annotations)
      && (node.restrictions.Some? <==> RestrictionsShown(m.methodRestrictions))
      && (node.restrictions.Some? ==> node.restrictions.value == m.methodRestrictions)
      && (node.hasCode <==> m.implementation.Some?)
  {
    if !MethodEmitted(m) then Success(None)
    else
      var signature :- GetSignature(m.methodAnnotations);
      var exceptions :- GetExceptions(m.methodAnnotations);
      var annotationDefault :-
        if Has(c.classFlags, ACC_ANNOTATION) then AnnotationDefault(c.classAnnotations, m.methodName)
        else Success(None);
      var annotations :- TransformAnnotations(OmitType(m.methodAnnotations, METHOD_METADATA));
      Success(Some(MethodNode(
        MethodFlags(m), m.methodName, MethodDescriptor(ParameterTypes(m), m.returnType),
        signature, exceptions, annotationDefault, annotations,
        if RestrictionsShown(m.methodRestrictions) then Some(m.methodRestrictions) else None,
        m.implementation.Some?)))
  }
}
