/** The stub bodies of `transformMethodImplementation`: the instructions that
    replace every method body, the parameter names and local-variable table
    kept from the debug info, the parameter annotations, and the frame sizes.

    A stub pushes the zero value of the return type and returns it; a
    constructor of a class other than Object calls its superclass's no-argument
    constructor first. */
module StubBody {
  import opened Wrappers
  import opened Dex
  import opened AccessFlags
  import opened TypeUtils
  import opened EncodedValues
  import opened Members
  import opened Parameters

  // ---------------------------------------------------------------------
  // Instructions
  // ---------------------------------------------------------------------

  /** The JVM instructions a stub may contain (chapter 6 of the Java Virtual
      Machine Specification). */
  datatype Insn =
    | ALoad(slot: nat)
    | InvokeSpecial(owner: Option<string>, name: string, descriptor: string)
    | IConst0 | FConst0 | LConst0 | DConst0 | AConstNull
    | IReturn | FReturn | LReturn | DReturn | AReturn | Return

  /** The categories a return descriptor falls into, by its first character. */
  datatype ReturnKind = IntKind | FloatKind | LongKind | DoubleKind | VoidKind | ReferenceKind

  function KindOf(first: char): ReturnKind {
    match first
    case 'Z' => IntKind
    case 'B' => IntKind
    case 'S' => IntKind
    case 'C' => IntKind
    case 'I' => IntKind
    case 'F' => FloatKind
    case 'J' => LongKind
    case 'D' => DoubleKind
    case 'V' => VoidKind
    case _ => ReferenceKind
  }

  /** The constructor special case. */
  predicate IsConstructorStub(m: Method) {
    m.methodName == "<init>" && m.returnType == "V" && m.methodClass != TYPE_OBJECT
  }

  /** The instructions and operand-stack size of a stub body, chosen by the
      return type's first character. */
  function ZeroReturn(kind: ReturnKind): (seq<Insn>, nat) {
    match kind
    case IntKind => ([IConst0, IReturn], 1)
    case FloatKind => ([FConst0, FReturn], 1)
    case LongKind => ([LConst0, LReturn], 2)
    case DoubleKind => ([DConst0, DReturn], 2)
    case VoidKind => ([Return], 0)
    case ReferenceKind => ([AConstNull, AReturn], 1)
  }

  /** `toCfName` of a possibly-null descriptor: null stays null, and a
      descriptor too short to strip fails where `substring` would throw. */
  function CfNameOrFail(d: Option<string>): (r: Result<Option<string>, Failure>)
    ensures r.Success? <==> (d.Some? ==> |d.value| >= 2)
    ensures r.Success? ==> r.value == ToCfNameOrNull(d)
  {
    if d.Some? && |d.value| < 2 then Failure(StringIndexOutOfBounds)
    else Success(ToCfNameOrNull(d))
  }

  /** The instructions of the stub for method `m` of class `c`, with the
      operand-stack size; the return type must have a first character. */
  function StubInstructions(c: ClassDef, m: Method): (r: Result<(seq<Insn>, nat), Failure>)
    ensures IsConstructorStub(m) ==> (r.Success? <==> (c.superclass.Some? ==> |c.superclass.value| >= 2))
    ensures IsConstructorStub(m) && r.Success? ==>
      (c.superclass.Some? ==> |c.superclass.value| >= 2) &&
      r.value == ([ALoad(0), InvokeSpecial(ToCfNameOrNull(c.superclass), "<init>", "()V"), Return], 1)
    ensures !IsConstructorStub(m) ==> (r.Success? <==> |m.returnType| > 0)
    ensures !IsConstructorStub(m) && r.Success? ==> r.value == ZeroReturn(KindOf(m.returnType[0]))
  {
    if IsConstructorStub(m) then
      var owner :- CfNameOrFail(c.superclass);
      Success(([ALoad(0), InvokeSpecial(owner, "<init>", "()V"), Return], 1))
    else if |m.returnType| == 0 then Failure(StringIndexOutOfBounds)
    else Success(ZeroReturn(KindOf(m.returnType[0])))
  }

  // ---------------------------------------------------------------------
  // The reference: an abstract interpreter for stub code
  // ---------------------------------------------------------------------

  /** Verification types of operand-stack entries. */
  datatype StackType = IntType | FloatType | LongType | DoubleType | ReferenceType

  function Words(t: StackType): nat {
    if t == LongType || t == DoubleType then 2 else 1
  }

  function StackWords(stack: seq<StackType>): nat {
    if |stack| == 0 then 0 else Words(stack[|stack| - 1]) + StackWords(stack[..|stack| - 1])
  }

  /** The stack type a return kind's value has, if any. */
  function ValueType(kind: ReturnKind): Option<StackType> {
    match kind
    case IntKind => Some(IntType)
    case FloatKind => Some(FloatType)
    case LongKind => Some(LongType)
    case DoubleKind => Some(DoubleType)
    case VoidKind => None
    case ReferenceKind => Some(ReferenceType)
  }

  /** The value a typed return instruction returns; `Return` returns none. */
  function Returned(i: Insn): Option<StackType>
    requires i.IReturn? || i.FReturn? || i.LReturn? || i.DReturn? || i.AReturn?
  {
    match i
    case IReturn => Some(IntType)
    case FReturn => Some(FloatType)
    case LReturn => Some(LongType)
    case DReturn => Some(DoubleType)
    case AReturn => Some(ReferenceType)
  }

  /** Runs straight-line code from the given stack in a method returning
      `kind`: every instruction finds the operands it needs, the last one is
      the return matching `kind` on a stack holding only the returned value,
      and the result is the largest stack size, in words, reached. Slot 0
      holds `this` in an instance method. */
  function Run(code: seq<Insn>, stack: seq<StackType>, kind: ReturnKind, hasThis: bool): Option<nat>
    decreases |code|
  {
    if |code| == 0 then None
    else
      var i := code[0];
      var rest := code[1..];
      match i
      case ALoad(slot) =>
        if slot == 0 && hasThis then Max(StackWords(stack + [ReferenceType]), Run(rest, stack + [ReferenceType], kind, hasThis))
        else None
      case InvokeSpecial(_, name, descriptor) =>
        if name == "<init>" && descriptor == "()V" && |stack| > 0 && stack[|stack| - 1] == ReferenceType
        then Max(StackWords(stack), Run(rest, stack[..|stack| - 1], kind, hasThis))
        else None
      case IConst0 => Max(StackWords(stack + [IntType]), Run(rest, stack + [IntType], kind, hasThis))
      case FConst0 => Max(StackWords(stack + [FloatType]), Run(rest, stack + [FloatType], kind, hasThis))
      case LConst0 => Max(StackWords(stack + [LongType]), Run(rest, stack + [LongType], kind, hasThis))
      case DConst0 => Max(StackWords(stack + [DoubleType]), Run(rest, stack + [DoubleType], kind, hasThis))
      case AConstNull => Max(StackWords(stack + [ReferenceType]), Run(rest, stack + [ReferenceType], kind, hasThis))
      case Return =>
        if |rest| == 0 && kind == VoidKind && |stack| == 0 then Some(0) else None
      case _ =>
        if |rest| == 0 && ValueType(kind) == Returned(i) && stack == [ValueType(kind).value]
        then Some(StackWords(stack)) else None
  }

  function Max(a: nat, b: Option<nat>): Option<nat> {
    match b
    case None => None
    case Some(x) => Some(if a < x then x else a)
  }

  /** Every stub is well typed against its descriptor and its operand-stack
      size is exactly the deepest stack it reaches: a constructor's stub
      returns void with `this` consumed, any other stub returns the zero value
      of its return type. */
  lemma StubIsWellTyped(c: ClassDef, m: Method)
    requires StubInstructions(c, m).Success?
    requires IsConstructorStub(m) ==> !Has(m.methodFlags, ACC_STATIC)
    ensures Run(StubInstructions(c, m).value.0, [], KindOf(m.returnType[0]), !Has(m.methodFlags, ACC_STATIC))
      == Some(StubInstructions(c, m).value.1)
  {
    var hasThis := !Has(m.methodFlags, ACC_STATIC);
    if IsConstructorStub(m) {
      ConstructorStubRuns(ToCfNameOrNull(c.superclass));
    } else {
      ZeroReturnRuns(KindOf(m.returnType[0]), hasThis);
    }
  }

  /** The constructor stub runs in an instance method returning void, with
      a stack of one word. */
  lemma ConstructorStubRuns(owner: Option<string>)
    ensures Run([ALoad(0), InvokeSpecial(owner, "<init>", "()V"), Return], [], VoidKind, true) == Some(1)
  {
    var code := [ALoad(0), InvokeSpecial(owner, "<init>", "()V"), Return];
    OneWordStack(ReferenceType);
    assert [ReferenceType][..0] == [];
    assert code[1..][1..] == [Return];
    assert Run(code[1..][1..], [], VoidKind, true) == Some(0);
    assert Run(code[1..], [ReferenceType], VoidKind, true) == Some(1);
  }

  /** The zero-value stub of every return kind runs, whether or not slot 0
      holds `this`, with the stack size it declares. */
  lemma ZeroReturnRuns(kind: ReturnKind, hasThis: bool)
    ensures Run(ZeroReturn(kind).0, [], kind, hasThis) == Some(ZeroReturn(kind).1)
  {
    var t := ValueType(kind);
    if t.Some? {
      OneWordStack(t.value);
      assert ZeroReturn(kind).0[1..] == [ZeroReturn(kind).0[1]];
      ReturnRuns(ZeroReturn(kind).0[1], kind, hasThis);
    }
  }

  /** The return instruction of a zero-value stub returns its one value. */
  lemma ReturnRuns(ret: Insn, kind: ReturnKind, hasThis: bool)
    requires ValueType(kind).Some? && ret == ZeroReturn(kind).0[1]
    ensures Run([ret], [ValueType(kind).value], kind, hasThis) == Some(Words(ValueType(kind).value))
  {
    OneWordStack(ValueType(kind).value);
  }

  lemma OneWordStack(t: StackType)
    ensures StackWords([t]) == Words(t)
  {
    assert [t][..0] == [];
  }

  // ---------------------------------------------------------------------
  // Parameter names, local variables and frame sizes
  // ---------------------------------------------------------------------

  /** The `visitParameter` loop: the names of the leading run of named
      parameters, stopping at the first nameless one. */
  function LeadingNames(ps: seq<ParameterRecord>): (names: seq<string>)
    ensures |names| <= |ps|
    ensures forall i :: 0 <= i < |names| ==> ps[i].name == Some(names[i])
    ensures |names| < |ps| ==> ps[|names|].name.None?
  {
    if |ps| == 0 || ps[0].name.None? then []
    else [ps[0].name.value] + LeadingNames(ps[1..])
  }

  /** Decimal digits of a natural number, as `"" + n` prints it. */
  function DecimalString(n: nat): (s: string)
    ensures |s| > 0
    ensures forall i :: 0 <= i < |s| ==> '0' <= s[i] <= '9'
    decreases n
  {
    var digit := [('0' as int + n % 10) as char];
    if n < 10 then digit else DecimalString(n / 10) + digit
  }

  function DecimalValue(s: string): nat
    requires forall i :: 0 <= i < |s| ==> '0' <= s[i] <= '9'
  {
    if |s| == 0 then 0 else DecimalValue(s[..|s| - 1]) * 10 + (s[|s| - 1] as int - '0' as int)
  }

  /** The digits read back give the number: the synthetic names `p<i>` are
      distinct for distinct positions. */
  lemma {:induction false} DecimalRoundTrip(n: nat)
    ensures DecimalValue(DecimalString(n)) == n
    decreases n
  {
    var s := DecimalString(n);
    if n >= 10 {
      DecimalRoundTrip(n / 10);
      assert s[..|s| - 1] == DecimalString(n / 10);
    }
  }

  /** A local-variable table entry. */
  datatype LocalVariable = LocalVariable(name: string, descriptor: string, signature: Option<string>, slot: int)

  /** Whether a parameter is described in the local-variable table. */
  predicate Described(p: ParameterRecord) {
    p.name.Some? || p.signature.Some?
  }

  /** The entry of parameter `index`: its recovered or dex name, or `p<index>`
      when only a signature is known. */
  function ParameterLocal(p: ParameterRecord, index: nat): LocalVariable {
    LocalVariable(if p.name.Some? then p.name.value else "p" + DecimalString(index), p.paramType, p.signature, p.id)
  }

  /** The parameter entries of the table, from position `from` on. */
  function ParameterLocals(ps: seq<ParameterRecord>, from: nat): seq<LocalVariable>
    decreases |ps|
  {
    if |ps| == 0 then []
    else (if Described(ps[0]) then [ParameterLocal(ps[0], from)] else []) + ParameterLocals(ps[1..], from + 1)
  }

  /** The table holds one entry per described parameter, in its position,
      and nothing else. */
  lemma {:induction false} ParameterLocalsExact(ps: seq<ParameterRecord>, from: nat)
    ensures forall lv :: lv in ParameterLocals(ps, from) ==>
      exists i :: 0 <= i < |ps| && Described(ps[i]) && lv == ParameterLocal(ps[i], from + i)
    ensures forall i :: 0 <= i < |ps| && Described(ps[i]) ==> ParameterLocal(ps[i], from + i) in ParameterLocals(ps, from)
    decreases |ps|
  {
    if |ps| > 0 {
      ParameterLocalsExact(ps[1..], from + 1);
      var head := if Described(ps[0]) then [ParameterLocal(ps[0], from)] else [];
      ParameterLocalsCons(ps, from, head, ParameterLocals(ps[1..], from + 1));
    }
  }

  /** One step of `ParameterLocals`: the first parameter's entry, if any, in
      front of the entries of the others. */
  lemma ParameterLocalsCons(ps: seq<ParameterRecord>, from: nat, head: seq<LocalVariable>, rest: seq<LocalVariable>)
    requires |ps| > 0
    requires head == if Described(ps[0]) then [ParameterLocal(ps[0], from)] else []
    requires forall lv :: lv in rest ==>
      exists i :: 0 <= i < |ps[1..]| && Described(ps[1..][i]) && lv == ParameterLocal(ps[1..][i], from + 1 + i)
    requires forall i :: 0 <= i < |ps[1..]| && Described(ps[1..][i]) ==> ParameterLocal(ps[1..][i], from + 1 + i) in rest
    ensures forall lv :: lv in head + rest ==> exists i :: 0 <= i < |ps| && Described(ps[i]) && lv == ParameterLocal(ps[i], from + i)
    ensures forall i :: 0 <= i < |ps| && Described(ps[i]) ==> ParameterLocal(ps[i], from + i) in head + rest
  {
    forall lv | lv in head + rest
      ensures exists i :: 0 <= i < |ps| && Described(ps[i]) && lv == ParameterLocal(ps[i], from + i)
    {
      if lv in head {
        assert Described(ps[0]) && lv == ParameterLocal(ps[0], from + 0);
      } else {
        var i :| 0 <= i < |ps[1..]| && Described(ps[1..][i]) && lv == ParameterLocal(ps[1..][i], from + 1 + i);
        assert ps[1..][i] == ps[i + 1];
        assert Described(ps[i + 1]) && lv == ParameterLocal(ps[i + 1], from + (i + 1));
      }
    }
    forall i | 0 <= i < |ps| && Described(ps[i])
      ensures ParameterLocal(ps[i], from + i) in head + rest
    {
      if i > 0 {
        assert ps[1..][i - 1] == ps[i];
        assert ParameterLocal(ps[1..][i - 1], from + 1 + (i - 1)) in rest;
      }
    }
  }

  /** The local-variable table: `this` in slot 0 of an instance method, then
      every described parameter in its own slot. */
  function LocalVariables(m: Method, ps: seq<ParameterRecord>): (r: seq<LocalVariable>)
    ensures !Has(m.methodFlags, ACC_STATIC) ==> |r| > 0 && r[0] == ThisLocal(m)
    ensures forall lv :: lv in r ==>
      || (!Has(m.methodFlags, ACC_STATIC) && lv == ThisLocal(m))
      || exists i :: 0 <= i < |ps| && Described(ps[i]) && lv == ParameterLocal(ps[i], i)
    ensures forall i :: 0 <= i < |ps| && Described(ps[i]) ==> ParameterLocal(ps[i], i) in r
  {
    ParameterLocalsExact(ps, 0);
    (if Has(m.methodFlags, ACC_STATIC) then [] else [ThisLocal(m)]) + ParameterLocals(ps, 0)
  }

  /** The entry of `this`, in slot 0. */
  function ThisLocal(m: Method): LocalVariable {
    LocalVariable("this", m.methodClass, None, 0)
  }

  /** `max_locals` as written: the last parameter's slot, or the first slot
      when there is no parameter. */
  function MaxLocalsAsWritten(m: Method, ps: seq<ParameterRecord>): int {
    if |ps| != 0 then ps[|ps| - 1].id else FirstSlot(m)
  }

  /** `max_locals` corrected: the slot after the last parameter. It exceeds
      the value as written by the last parameter's width. */
  function MaxLocals(m: Method, ps: seq<ParameterRecord>): (r: int)
    ensures |ps| != 0 ==> r == MaxLocalsAsWritten(m, ps) + Width(ps[|ps| - 1].paramType)
    ensures |ps| != 0 ==> r > MaxLocalsAsWritten(m, ps)
    ensures |ps| == 0 ==> r == MaxLocalsAsWritten(m, ps)
  {
    if |ps| != 0 then ps[|ps| - 1].id + Width(ps[|ps| - 1].paramType) else FirstSlot(m)
  }

  /** As written, `max_locals` falls short of the descriptor's argument words
      by exactly the last parameter's width. */
  lemma MaxLocalsAsWrittenShort(m: Method)
    requires m.implementation.Some?
    ensures |m.parameters| != 0 ==>
      MaxLocalsAsWritten(m, GetParameters(m)) + Width(m.parameters[|m.parameters| - 1].paramType)
        == FirstSlot(m) + Slots(Types(m.parameters))
    ensures |m.parameters| == 0 ==> MaxLocalsAsWritten(m, GetParameters(m)) == FirstSlot(m)
  {
    var ps := GetParameters(m);
    var n := |m.parameters|;
    if n > 0 {
      var ts := Types(m.parameters);
      SlotsLast(ts);
      assert ps[n - 1].id == FirstSlot(m) + Slots(ts[..n - 1]);
      assert ts[n - 1] == m.parameters[n - 1].paramType;
    }
  }

  /** The corrected `max_locals` is exactly the argument words of the
      descriptor, as section 4.7.3 of the Java Virtual Machine Specification
      requires of a method's frame. */
  lemma MaxLocalsIsArgumentWords(m: Method)
    requires m.implementation.Some?
    ensures MaxLocals(m, GetParameters(m)) == FirstSlot(m) + Slots(Types(m.parameters))
  {
    var ps := GetParameters(m);
    var n := |m.parameters|;
    if n > 0 {
      var ts := Types(m.parameters);
      SlotsLast(ts);
      assert ps[n - 1].id == FirstSlot(m) + Slots(ts[..n - 1]);
      assert ps[n - 1].paramType == ts[n - 1];
    }
  }

  /** Every local lies inside the frame, and every parameter's entry, `long`
      and `double` pairs included, lies wholly below the corrected
      `max_locals`. */
  lemma LocalsFitInFrame(m: Method, lv: LocalVariable)
    requires m.implementation.Some?
    requires lv in LocalVariables(m, GetParameters(m))
    ensures 0 <= lv.slot < MaxLocals(m, GetParameters(m))
    ensures lv in ParameterLocals(GetParameters(m), 0) ==>
      lv.slot + Width(lv.descriptor) <= MaxLocals(m, GetParameters(m))
  {
    var ps := GetParameters(m);
    if lv in ParameterLocals(ps, 0) {
      ParameterLocalInFrame(m, lv);
    } else {
      assert !Has(m.methodFlags, ACC_STATIC) && lv == ThisLocal(m) by {
        assert LocalVariables(m, ps) == (if Has(m.methodFlags, ACC_STATIC) then [] else [ThisLocal(m)]) + ParameterLocals(ps, 0);
      }
      ThisInFrame(m);
    }
  }

  /** An instance method's frame holds slot 0, where `this` lives. */
  lemma ThisInFrame(m: Method)
    requires m.implementation.Some? && !Has(m.methodFlags, ACC_STATIC)
    ensures 0 < MaxLocals(m, GetParameters(m))
  {
    MaxLocalsIsArgumentWords(m);
    assert FirstSlot(m) == 1;
  }

  /** A parameter's entry lies wholly below the corrected `max_locals`. */
  lemma ParameterLocalInFrame(m: Method, lv: LocalVariable)
    requires m.implementation.Some?
    requires lv in ParameterLocals(GetParameters(m), 0)
    ensures 0 <= lv.slot && lv.slot + Width(lv.descriptor) <= MaxLocals(m, GetParameters(m))
  {
    var ps := GetParameters(m);
    ParameterLocalsExact(ps, 0);
    var i :| 0 <= i < |ps| && Described(ps[i]) && lv == ParameterLocal(ps[i], i);
    ParameterSlotInFrame(m, i);
  }

  /** Parameter `i`'s slot, and the one after it for `long` and `double`, lie
      below the corrected `max_locals`. */
  lemma ParameterSlotInFrame(m: Method, i: nat)
    requires m.implementation.Some? && i < |m.parameters|
    ensures |GetParameters(m)| == |m.parameters|
    ensures 0 <= GetParameters(m)[i].id
    ensures GetParameters(m)[i].id + Width(GetParameters(m)[i].paramType) <= MaxLocals(m, GetParameters(m))
  {
    MaxLocalsIsArgumentWords(m);
    GetParametersShape(m, i);
    var ts := Types(m.parameters);
    SlotsSplit(ts, i);
    assert ts[i..][1..] == ts[i + 1..];
    assert ts[i..][0] == m.parameters[i].paramType;
  }

  /** A static method taking one named `int`. */
  const NARROW_EXAMPLE: Method := Method(
    "LExample;", "set",
    [Parameter("I", Some("value"), None, [])],
    "V", {ACC_PUBLIC, ACC_STATIC}, [],
    Some(Implementation(1, [], [])),
    {})

  /** As written, `max_locals` is 0 although the method's one argument and
      its local-variable entry need slot 0; corrected it is 1. */
  lemma MaxLocalsTooSmall()
    ensures MaxLocalsAsWritten(NARROW_EXAMPLE, GetParameters(NARROW_EXAMPLE)) == 0
    ensures LocalVariable("value", "I", None, 0) in LocalVariables(NARROW_EXAMPLE, GetParameters(NARROW_EXAMPLE))
    ensures MaxLocals(NARROW_EXAMPLE, GetParameters(NARROW_EXAMPLE)) == 1
  {
    var m := NARROW_EXAMPLE;
    assert !RecoveryRuns(m);
    GetParametersShape(m, 0);
    var ps := GetParameters(m);
    assert Types(m.parameters)[..0] == [];
    assert ps[0].id == 0 && ps[0].name == Some("value");
    assert Described(ps[0]);
    assert ParameterLocal(ps[0], 0) == LocalVariable("value", "I", None, 0);
  }

  // ---------------------------------------------------------------------
  // The whole body
  // ---------------------------------------------------------------------

  /** The parameter annotations of the described parameters, each under its
      position, without Signature annotations. Every entry is that of a
      described parameter and holds its annotations, and the entries come in
      increasing position order, so no parameter has two. */
  function ParameterAnnotations(ps: seq<ParameterRecord>, from: nat): (r: Result<seq<(nat, seq<AsmAnnotationNode>)>, Failure>)
    ensures r.Success? ==> forall e :: e in r.value ==> EntryFor(ps, from, e)
    ensures r.Success? ==> forall k, l :: 0 <= k < l < |r.value| ==> r.value[k].0 < r.value[l].0
    decreases |ps|
  {
    if |ps| == 0 then Success([])
    else if Described(ps[0]) && AnnotationsOf(ps[0]).Failure? then Failure(AnnotationsOf(ps[0]).error)
    else
      var rest :- ParameterAnnotations(ps[1..], from + 1);
      var head := HeadEntries(ps, from);
      EntriesShift(ps, from, rest);
      assert forall e :: e in head ==> e == EntryOf(ps, from, 0) && EntryFor(ps, from, e);
      HeadBeforeRest(head, rest, from);
      Success(head + rest)
  }

  /** The visible annotations of one parameter, without its Signature
      annotation. */
  function AnnotationsOf(p: ParameterRecord): Result<seq<AsmAnnotationNode>, Failure> {
    TransformAnnotations(OmitType(p.annotations, {TYPE_DALVIK_SIGNATURE}))
  }

  /** The entry the parameter annotations hold for parameter `i`. */
  function EntryOf(ps: seq<ParameterRecord>, from: nat, i: nat): (nat, seq<AsmAnnotationNode>)
    requires i < |ps| && AnnotationsOf(ps[i]).Success?
  {
    (from + i, AnnotationsOf(ps[i]).value)
  }

  /** The entries in front of those of `ps[1..]`: the first parameter's, if
      it is described. */
  function HeadEntries(ps: seq<ParameterRecord>, from: nat): seq<(nat, seq<AsmAnnotationNode>)>
    requires |ps| > 0 && (Described(ps[0]) ==> AnnotationsOf(ps[0]).Success?)
  {
    if Described(ps[0]) then [EntryOf(ps, from, 0)] else []
  }

  /** One step of `ParameterAnnotations` when it succeeds. */
  lemma ParameterAnnotationsStep(ps: seq<ParameterRecord>, from: nat)
    requires |ps| > 0 && ParameterAnnotations(ps, from).Success?
    ensures Described(ps[0]) ==> AnnotationsOf(ps[0]).Success?
    ensures ParameterAnnotations(ps[1..], from + 1).Success?
    ensures ParameterAnnotations(ps, from).value == HeadEntries(ps, from) + ParameterAnnotations(ps[1..], from + 1).value
  {
  }

  /** The parameter annotations fail exactly when those of a described
      parameter fail. */
  lemma {:induction false} ParameterAnnotationsSucceed(ps: seq<ParameterRecord>, from: nat)
    ensures ParameterAnnotations(ps, from).Success? <==>
      forall i :: 0 <= i < |ps| && Described(ps[i]) ==> AnnotationsOf(ps[i]).Success?
    decreases |ps|
  {
    if |ps| > 0 {
      ParameterAnnotationsSucceed(ps[1..], from + 1);
      assert forall i :: 1 <= i < |ps| ==> ps[i] == ps[1..][i - 1];
    }
  }

  /** Every described parameter has its entry, under its position. */
  lemma {:induction false} ParameterAnnotationsComplete(ps: seq<ParameterRecord>, from: nat, i: nat)
    requires ParameterAnnotations(ps, from).Success?
    requires i < |ps| && Described(ps[i])
    ensures AnnotationsOf(ps[i]).Success?
    ensures EntryOf(ps, from, i) in ParameterAnnotations(ps, from).value
    decreases |ps|
  {
    ParameterAnnotationsStep(ps, from);
    if i == 0 {
      CompleteHead(ps, from);
    } else {
      assert ps[1..][i - 1] == ps[i];
      ParameterAnnotationsComplete(ps[1..], from + 1, i - 1);
      CompleteShift(ps, from, i);
    }
  }

  /** The first parameter's entry, when it is described, leads the list. */
  lemma CompleteHead(ps: seq<ParameterRecord>, from: nat)
    requires |ps| > 0 && Described(ps[0]) && AnnotationsOf(ps[0]).Success?
    requires ParameterAnnotations(ps[1..], from + 1).Success?
    requires ParameterAnnotations(ps, from).Success?
    requires ParameterAnnotations(ps, from).value == HeadEntries(ps, from) + ParameterAnnotations(ps[1..], from + 1).value
    ensures EntryOf(ps, from, 0) in ParameterAnnotations(ps, from).value
  {
    assert ParameterAnnotations(ps, from).value[0] == EntryOf(ps, from, 0);
  }

  /** An entry of `ps[1..]` is one of `ps`, under the next position. */
  lemma CompleteShift(ps: seq<ParameterRecord>, from: nat, i: nat)
    requires 0 < i < |ps| && AnnotationsOf(ps[i]).Success? && ps[1..][i - 1] == ps[i]
    requires ParameterAnnotations(ps[1..], from + 1).Success?
    requires EntryOf(ps[1..], from + 1, i - 1) in ParameterAnnotations(ps[1..], from + 1).value
    requires Described(ps[0]) ==> AnnotationsOf(ps[0]).Success?
    requires ParameterAnnotations(ps, from).Success?
    requires ParameterAnnotations(ps, from).value == HeadEntries(ps, from) + ParameterAnnotations(ps[1..], from + 1).value
    ensures EntryOf(ps, from, i) in ParameterAnnotations(ps, from).value
  {
    assert EntryOf(ps[1..], from + 1, i - 1) == EntryOf(ps, from, i);
  }

  /** Entry `e` is under the position of a described parameter and holds
      that parameter's annotations. */
  predicate EntryFor(ps: seq<ParameterRecord>, from: nat, e: (nat, seq<AsmAnnotationNode>)) {
    from <= e.0 < from + |ps| && Described(ps[e.0 - from]) && AnnotationsOf(ps[e.0 - from]) == Success(e.1)
  }

  /** The entries of `ps[1..]` counted from `from + 1` are entries of `ps`
      counted from `from`, all above `from`. */
  lemma EntriesShift(ps: seq<ParameterRecord>, from: nat, rest: seq<(nat, seq<AsmAnnotationNode>)>)
    requires |ps| > 0 && forall e :: e in rest ==> EntryFor(ps[1..], from + 1, e)
    ensures forall e :: e in rest ==> EntryFor(ps, from, e) && e.0 > from
  {
    forall e | e in rest
      ensures EntryFor(ps, from, e) && e.0 > from
    {
      EntryForShift(ps, from, e);
    }
  }

  /** An entry of `ps[1..]` counted from `from + 1` is one of `ps` counted
      from `from`. */
  lemma EntryForShift(ps: seq<ParameterRecord>, from: nat, e: (nat, seq<AsmAnnotationNode>))
    requires |ps| > 0 && EntryFor(ps[1..], from + 1, e)
    ensures EntryFor(ps, from, e) && e.0 > from
  {
    assert ps[1..][e.0 - (from + 1)] == ps[e.0 - from];
  }

  /** Entries under `from` at most, in front of increasing entries above
      `from`, are increasing. */
  lemma HeadBeforeRest(head: seq<(nat, seq<AsmAnnotationNode>)>, rest: seq<(nat, seq<AsmAnnotationNode>)>, from: nat)
    requires |head| <= 1 && forall e :: e in head ==> e.0 == from
    requires forall e :: e in rest ==> e.0 > from
    requires forall k, l :: 0 <= k < l < |rest| ==> rest[k].0 < rest[l].0
    ensures var entries := head + rest;
      forall k, l :: 0 <= k < l < |entries| ==> entries[k].0 < entries[l].0
  {
    var entries := head + rest;
    forall k, l | 0 <= k < l < |entries|
      ensures entries[k].0 < entries[l].0
    {
      if k < |head| {
        assert entries[k] in head && entries[l] == rest[l - |head|];
        assert entries[l] in rest;
      } else {
        assert entries[k] == rest[k - |head|] && entries[l] == rest[l - |head|];
      }
    }
  }

  /** What `transformMethodImplementation` writes. */
  datatype Code = Code(
    parameterNames: seq<string>,
    instructions: seq<Insn>,
    maxStack: nat,
    locals: seq<LocalVariable>,
    parameterAnnotations: seq<(nat, seq<AsmAnnotationNode>)>,
    maxLocals: int)

  /** The stub body of method `m` of class `c`, with the corrected parameter
      registers and frame size. */
  function StubCode(c: ClassDef, m: Method): (r: Result<Code, Failure>)
    requires m.implementation.Some?
    ensures r.Success? ==> StubInstructions(c, m).Success?
    ensures r.Success? ==> r.value.instructions == StubInstructions(c, m).value.0
    ensures r.Success? ==> r.value.maxStack == StubInstructions(c, m).value.1
    ensures r.Success? ==> r.value.maxLocals == FirstSlot(m) + Slots(Types(m.parameters))
    ensures r.Success? ==> forall lv :: lv in r.value.locals ==> 0 <= lv.slot < r.value.maxLocals
    ensures r.Success? ==> r.value.parameterNames == LeadingNames(GetParameters(m))
    ensures r.Success? <==> StubInstructions(c, m).Success? && ParameterAnnotations(GetParameters(m), 0).Success?
    ensures r.Success? ==> r.value.locals == LocalVariables(m, GetParameters(m))
    ensures r.Success? ==> ParameterAnnotations(GetParameters(m), 0) == Success(r.value.parameterAnnotations)
  {
    var ps := GetParameters(m);
    var body := StubInstructions(c, m);
    var annotations := ParameterAnnotations(ps, 0);
    if body.Failure? then Failure(body.error)
    else if annotations.Failure? then Failure(annotations.error)
    else
      FrameHoldsLocals(m);
      Success(Code(LeadingNames(ps), body.value.0, body.value.1, LocalVariables(m, ps), annotations.value, MaxLocals(m, ps)))
  }

  /** An emitted method: its node and, when it has a body, the stub code. */
  datatype MethodOutput = MethodOutput(node: MethodNode, code: Option<Code>)

  /** The whole of `transformMethod`: the method node, then the stub body
      when the method has an implementation. A failure in the body fails the
      method, as the exception thrown from the body transform escapes it. */
  function TransformMethodWithCode(c: ClassDef, m: Method): (r: Result<Option<MethodOutput>, Failure>)
    ensures !MethodEmitted(m) ==> r == Success(None)
    ensures MethodEmitted(m) ==>
      (r.Success? <==>
        && TransformMethod(c, m).Success?
        && (m.implementation.Some? ==> StubCode(c, m).Success?))
    ensures MethodEmitted(m) && r.Success? ==> r.value.Some?
    ensures r.Success? && r.value.Some? ==>
      && TransformMethod(c, m) == Success(Some(r.value.value.node))
      && (r.value.value.code.Some? <==> r.value.value.node.hasCode)
      && (r.value.value.code.Some? <==> m.implementation.Some?)
      && (m.implementation.Some? ==> StubCode(c, m) == Success(r.value.value.code.value))
  {
    var node :- TransformMethod(c, m);
    if node.None? then Success(None)
    else if m.implementation.None? then Success(Some(MethodOutput(node.value, None)))
    else
      var code :- StubCode(c, m);
      Success(Some(MethodOutput(node.value, Some(code))))
  }

  lemma FrameHoldsLocals(m: Method)
    requires m.implementation.Some?
    ensures MaxLocals(m, GetParameters(m)) == FirstSlot(m) + Slots(Types(m.parameters))
    ensures forall lv :: lv in LocalVariables(m, GetParameters(m)) ==> 0 <= lv.slot < MaxLocals(m, GetParameters(m))
  {
    MaxLocalsIsArgumentWords(m);
    forall lv | lv in LocalVariables(m, GetParameters(m))
      ensures 0 <= lv.slot < MaxLocals(m, GetParameters(m))
    {
      LocalsFitInFrame(m, lv);
    }
  }
}
