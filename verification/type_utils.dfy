/** Descriptor and name helpers (TypeUtils.java): class-file names from dex
    type descriptors, component types, outer names, method descriptors, and the
    readers of the reserved Signature and Throws annotations.

    Field and method descriptors follow section 4.3.2 and 4.3.3 of the Java
    Virtual Machine Specification; binary class names follow section 4.2.1. The
    test-jar switch is the constant `false`, so `wrapType` is the identity and
    every call to it is written here as its argument. */
module TypeUtils {
  import opened Wrappers
  import opened Dex

  const TYPE_DALVIK_ENCLOSING_CLASS := "Ldalvik/annotation/EnclosingClass;"
  const TYPE_DALVIK_INNER_CLASS := "Ldalvik/annotation/InnerClass;"
  const TYPE_DALVIK_MEMBER_CLASSES := "Ldalvik/annotation/MemberClasses;"
  const TYPE_DALVIK_ENCLOSING_METHOD := "Ldalvik/annotation/EnclosingMethod;"
  const TYPE_DALVIK_SIGNATURE := "Ldalvik/annotation/Signature;"
  const TYPE_DALVIK_METHOD_PARAMETERS := "Ldalvik/annotation/MethodParameters;"
  const TYPE_DALVIK_THROWS := "Ldalvik/annotation/Throws;"
  const TYPE_DALVIK_ANNOTATION_DEFAULT := "Ldalvik/annotation/AnnotationDefault;"
  const TYPE_DALVIK_PERMITTED_SUBCLASSES := "Ldalvik/annotation/PermittedSubclasses;"
  const TYPE_DALVIK_RECORD := "Ldalvik/annotation/Record;"
  /** The deprecation marker. */
  const TYPE_DEPRECATED := "Ljava/lang/Deprecated;"

  const TYPE_OBJECT := "Ljava/lang/Object;"
  const TYPE_STRING := "Ljava/lang/String;"

  // ---------------------------------------------------------------------
  // java.lang.String searches
  // ---------------------------------------------------------------------

  predicate StartsWith(s: string, prefix: string) {
    |prefix| <= |s| && s[..|prefix|] == prefix
  }

  /** `s.indexOf(c, from)`: the first position at or after `from` holding `c`,
      or -1. */
  function IndexOf(s: string, c: char, from: nat): (r: int)
    ensures r == -1 || (from <= r < |s| && s[r] == c)
    ensures r == -1 ==> forall i :: from <= i < |s| ==> s[i] != c
    ensures r != -1 ==> forall i :: from <= i < r ==> s[i] != c
    decreases |s| - from
  {
    if from >= |s| then -1
    else if s[from] == c then from
    else IndexOf(s, c, from + 1)
  }

  /** `s.lastIndexOf(c)`: the last position holding `c`, or -1. */
  function LastIndexOf(s: string, c: char): (r: int)
    ensures r == -1 || (0 <= r < |s| && s[r] == c)
    ensures r == -1 ==> forall i :: 0 <= i < |s| ==> s[i] != c
    ensures r != -1 ==> forall i :: r < i < |s| ==> s[i] != c
  {
    if |s| == 0 then -1
    else if s[|s| - 1] == c then |s| - 1
    else LastIndexOf(s[..|s| - 1], c)
  }

  /** In-order concatenation of a list of strings. */
  function Concat(ss: seq<string>): string {
    if |ss| == 0 then "" else ss[0] + Concat(ss[1..])
  }

  // ---------------------------------------------------------------------
  // Class-file names
  // ---------------------------------------------------------------------

  /** `toCfName(descriptor)`: the descriptor without its first and last
      character, so `Ljava/lang/Object;` becomes `java/lang/Object`. */
  function ToCfName(descriptor: string): (r: string)
    requires |descriptor| >= 2
    ensures |r| == |descriptor| - 2
    ensures forall i :: 0 <= i < |r| ==> r[i] == descriptor[i + 1]
  {
    descriptor[1..|descriptor| - 1]
  }

  /** The null-tolerant form: null maps to null. */
  function ToCfNameOrNull(descriptor: Option<string>): (r: Option<string>)
    requires descriptor.Some? ==> |descriptor.value| >= 2
    ensures r.Some? <==> descriptor.Some?
    ensures r.Some? ==> r.value == ToCfName(descriptor.value)
  {
    match descriptor
    case None => None
    case Some(d) => Some(ToCfName(d))
  }

  /** `toCfName(List)`: the list mapped element-wise, length and order kept. */
  function ToCfNames(descriptors: seq<string>): (r: seq<string>)
    requires forall i :: 0 <= i < |descriptors| ==> |descriptors[i]| >= 2
    ensures |r| == |descriptors|
    ensures forall i :: 0 <= i < |r| ==> r[i] == ToCfName(descriptors[i])
  {
    if |descriptors| == 0 then [] else [ToCfName(descriptors[0])] + ToCfNames(descriptors[1..])
  }

  /** A class-type descriptor `L<name>;`. */
  predicate IsClassDescriptor(d: string) {
    |d| >= 2 && d[0] == 'L' && d[|d| - 1] == ';'
  }

  /** `toCfName` and wrapping in `L…;` are inverse to each other. */
  lemma {:induction false} CfNameRoundTrip(name: string, d: string)
    ensures ToCfName("L" + name + ";") == name
    ensures IsClassDescriptor(d) ==> "L" + ToCfName(d) + ";" == d
  {
    var w := "L" + name + ";";
    assert w[1..|w| - 1] == name;
    if IsClassDescriptor(d) {
      assert d == [d[0]] + d[1..|d| - 1] + [d[|d| - 1]];
    }
  }

  /** Distinct class descriptors have distinct class-file names, so the output
      tiers cannot collide on well-formed type names. */
  lemma CfNameInjective(d1: string, d2: string)
    requires IsClassDescriptor(d1) && IsClassDescriptor(d2) && d1 != d2
    ensures ToCfName(d1) != ToCfName(d2)
  {
    CfNameRoundTrip("", d1);
    CfNameRoundTrip("", d2);
  }

  /** `getOuterName` needs a `$` after the last `/`; without one the source's
      `substring(0, -1)` throws. */
  predicate HasOuterName(name: string) {
    var slash := LastIndexOf(name, '/');
    IndexOf(name, '$', if slash < 0 then 0 else slash) != -1
  }

  /** `getOuterName(name)`: the prefix of `name` up to the first `$` that
      follows the last `/`. */
  function OuterName(name: string): (r: string)
    requires HasOuterName(name)
    ensures |r| < |name| && name[..|r|] == r && name[|r|] == '$'
    ensures forall i :: |r| <= i < |name| ==> name[i] != '/'
    ensures forall i :: 0 <= i < |r| && LastIndexOf(name, '/') < i ==> name[i] != '$'
  {
    var slash := LastIndexOf(name, '/');
    name[..IndexOf(name, '$', if slash < 0 then 0 else slash)]
  }

  /** The outer name of `outer$inner` is `outer`, when `inner` holds no `/`
      and `outer` has no `$` after its last `/`. */
  lemma {:induction false} OuterNameOfNested(outer: string, inner: string)
    requires forall i :: 0 <= i < |inner| ==> inner[i] != '/'
    requires forall i :: 0 <= i < |outer| && LastIndexOf(outer, '/') < i ==> outer[i] != '$'
    ensures HasOuterName(outer + "$" + inner)
    ensures OuterName(outer + "$" + inner) == outer
  {
    var n := outer + "$" + inner;
    var slashO := LastIndexOf(outer, '/');
    var slash := LastIndexOf(n, '/');
    assert n[|outer|] == '$';
    assert forall i :: |outer| <= i < |n| ==> n[i] != '/' by {
      forall i | |outer| <= i < |n| ensures n[i] != '/' {
        if i > |outer| {
          assert n[i] == inner[i - |outer| - 1];
        }
      }
    }
    assert slash < |outer|;
    if slashO != -1 {
      assert n[slashO] == '/';
      assert slash == slashO;
    } else {
      assert slash == -1;
    }
    var from := if slash < 0 then 0 else slash;
    assert forall i :: from <= i < |outer| ==> n[i] != '$' by {
      forall i | from <= i < |outer| ensures n[i] != '$' {
        assert n[i] == outer[i];
        if slash >= 0 && i == slash {
          assert n[i] == '/';
        }
      }
    }
    var k := IndexOf(n, '$', from);
    assert k == |outer|;
    assert n[..k] == outer;
  }

  // ---------------------------------------------------------------------
  // Field and method descriptors
  // ---------------------------------------------------------------------

  predicate IsBaseCode(c: char) {
    c == 'B' || c == 'C' || c == 'D' || c == 'F' || c == 'I' || c == 'J' || c == 'S' || c == 'Z'
  }

  /** The abstract syntax of a field descriptor. */
  datatype FieldType = BaseType(code: char) | ObjectType(className: string) | ArrayOf(component: FieldType)

  datatype ReturnType = VoidReturn | Returns(fieldType: FieldType)

  predicate ValidFieldType(t: FieldType) {
    match t
    case BaseType(c) => IsBaseCode(c)
    case ObjectType(n) => |n| > 0 && forall i :: 0 <= i < |n| ==> n[i] != ';'
    case ArrayOf(e) => ValidFieldType(e)
  }

  predicate ValidReturnType(r: ReturnType) {
    r.VoidReturn? || ValidFieldType(r.fieldType)
  }

  function Descriptor(t: FieldType): string {
    match t
    case BaseType(c) => [c]
    case ObjectType(n) => "L" + n + ";"
    case ArrayOf(e) => "[" + Descriptor(e)
  }

  function ReturnDescriptor(r: ReturnType): string {
    match r
    case VoidReturn => "V"
    case Returns(t) => Descriptor(t)
  }

  function Descriptors(ts: seq<FieldType>): (r: seq<string>)
    ensures |r| == |ts|
    ensures forall i :: 0 <= i < |ts| ==> r[i] == Descriptor(ts[i])
  {
    if |ts| == 0 then [] else [Descriptor(ts[0])] + Descriptors(ts[1..])
  }

  /** `getMethodDescriptor`: `(`, the parameter types in order, `)`, the
      return type. */
  function MethodDescriptor(parameterTypes: seq<string>, returnType: string): (r: string)
    ensures |r| >= 2 && r[0] == '('
    ensures |r| == |Concat(parameterTypes)| + |returnType| + 2
    ensures r[|r| - |returnType| - 1] == ')' && r[|r| - |returnType|..] == returnType
  {
    "(" + Concat(parameterTypes) + ")" + returnType
  }

  /** Reads one field descriptor off the front of `s`. */
  function ParseFieldType(s: string): (r: Option<(FieldType, string)>)
    ensures r.Some? ==> |r.value.1| < |s|
    decreases |s|
  {
    if |s| == 0 then None
    else if IsBaseCode(s[0]) then Some((BaseType(s[0]), s[1..]))
    else if s[0] == 'L' then
      var semi := IndexOf(s, ';', 1);
      if semi <= 1 then None else Some((ObjectType(s[1..semi]), s[semi + 1..]))
    else if s[0] == '[' then
      match ParseFieldType(s[1..])
      case None => None
      case Some((e, rest)) => Some((ArrayOf(e), rest))
    else None
  }

  /** Reads field descriptors up to and including the closing `)`. */
  function ParseParameterTypes(s: string): Option<(seq<FieldType>, string)>
    decreases |s|
  {
    if |s| == 0 then None
    else if s[0] == ')' then Some(([], s[1..]))
    else
      match ParseFieldType(s)
      case None => None
      case Some((t, rest)) =>
        match ParseParameterTypes(rest)
        case None => None
        case Some((ts, tail)) => Some(([t] + ts, tail))
  }

  /** Reads a whole method descriptor. */
  function ParseMethodDescriptor(s: string): Option<(seq<FieldType>, ReturnType)> {
    if |s| == 0 || s[0] != '(' then None
    else
      match ParseParameterTypes(s[1..])
      case None => None
      case Some((ts, rest)) =>
        if rest == "V" then Some((ts, VoidReturn))
        else
          match ParseFieldType(rest)
          case Some((t, "")) => Some((ts, Returns(t)))
          case _ => None
  }

  lemma {:induction false} ParseFieldTypeRoundTrip(t: FieldType, rest: string)
    requires ValidFieldType(t)
    ensures ParseFieldType(Descriptor(t) + rest) == Some((t, rest))
    decreases t
  {
    var s := Descriptor(t) + rest;
    match t
    case BaseType(c) =>
      assert s[0] == c && s[1..] == rest;
    case ObjectType(n) =>
      assert s[0] == 'L';
      assert s[|n| + 1] == ';';
      assert forall i :: 1 <= i < |n| + 1 ==> s[i] == n[i - 1];
      var semi := IndexOf(s, ';', 1);
      assert semi == |n| + 1;
      assert s[1..semi] == n;
      assert s[semi + 1..] == rest;
    case ArrayOf(e) =>
      assert s[0] == '[';
      assert s[1..] == Descriptor(e) + rest;
      ParseFieldTypeRoundTrip(e, rest);
  }

  lemma {:induction false} ParseParameterTypesRoundTrip(ts: seq<FieldType>, tail: string)
    requires forall i :: 0 <= i < |ts| ==> ValidFieldType(ts[i])
    ensures ParseParameterTypes(Concat(Descriptors(ts)) + ")" + tail) == Some((ts, tail))
    decreases |ts|
  {
    var s := Concat(Descriptors(ts)) + ")" + tail;
    if |ts| == 0 {
      assert s == ")" + tail;
      assert s[1..] == tail;
    } else {
      var ds := Descriptors(ts);
      assert ds[1..] == Descriptors(ts[1..]);
      var more := Concat(Descriptors(ts[1..])) + ")" + tail;
      assert s == Descriptor(ts[0]) + more;
      var d0 := Descriptor(ts[0]);
      assert s[0] == d0[0] by {
        match ts[0]
        case BaseType(_) =>
        case ObjectType(_) =>
        case ArrayOf(_) =>
      }
      ParseFieldTypeRoundTrip(ts[0], more);
      ParseParameterTypesRoundTrip(ts[1..], tail);
      assert [ts[0]] + ts[1..] == ts;
    }
  }

  /** A method descriptor built by `getMethodDescriptor` from well-formed
      parameter and return descriptors parses back to exactly those types, in
      order: no parameter boundary is lost by the concatenation. */
  lemma {:induction false} MethodDescriptorRoundTrip(ts: seq<FieldType>, ret: ReturnType)
    requires forall i :: 0 <= i < |ts| ==> ValidFieldType(ts[i])
    requires ValidReturnType(ret)
    ensures ParseMethodDescriptor(MethodDescriptor(Descriptors(ts), ReturnDescriptor(ret))) == Some((ts, ret))
  {
    var rd := ReturnDescriptor(ret);
    var s := MethodDescriptor(Descriptors(ts), rd);
    assert s[1..] == Concat(Descriptors(ts)) + ")" + rd;
    ParseParameterTypesRoundTrip(ts, rd);
    match ret
    case VoidReturn =>
    case Returns(t) =>
      assert rd != "V" by {
        match t
        case BaseType(c) =>
          assert rd[0] == c && c != 'V';
        case ObjectType(_) =>
          assert rd[0] == 'L';
        case ArrayOf(_) =>
          assert rd[0] == '[';
      }
      ParseFieldTypeRoundTrip(t, "");
      assert rd + "" == rd;
  }

  // ---------------------------------------------------------------------
  // Component types
  // ---------------------------------------------------------------------

  /** `getComponentType`: an array type is reduced to the suffix starting at
      its first `L`; anything else (and an array of primitives) is unchanged.
      The source throws on the empty string; here it is returned unchanged. */
  function ComponentType(t: Option<string>): (r: Option<string>)
    ensures r.Some? <==> t.Some?
  {
    match t
    case None => None
    case Some(s) =>
      if |s| == 0 || s[0] != '[' then t
      else
        var index := IndexOf(s, 'L', 0);
        if index == -1 then t else Some(s[index..])
  }

  function Depth(t: FieldType): nat {
    if t.ArrayOf? then 1 + Depth(t.component) else 0
  }

  function ElementType(t: FieldType): (e: FieldType)
    ensures !e.ArrayOf?
  {
    if t.ArrayOf? then ElementType(t.component) else t
  }

  lemma {:induction false} DescriptorShape(t: FieldType)
    ensures |Descriptor(t)| >= Depth(t) + 1
    ensures forall i :: 0 <= i < Depth(t) ==> Descriptor(t)[i] == '['
    ensures Descriptor(t)[Depth(t)..] == Descriptor(ElementType(t))
  {
    if t.ArrayOf? {
      DescriptorShape(t.component);
      var d := Descriptor(t);
      assert d == "[" + Descriptor(t.component);
      assert d[Depth(t)..] == Descriptor(t.component)[Depth(t.component)..];
      forall i | 0 <= i < Depth(t) ensures d[i] == '[' {
        if i > 0 {
          assert d[i] == Descriptor(t.component)[i - 1];
        }
      }
    }
  }

  /** On a well-formed descriptor, `getComponentType` yields the element
      descriptor of an object array and leaves primitive arrays, object types
      and primitives unchanged. */
  lemma {:induction false} ComponentTypeOfDescriptor(t: FieldType)
    requires ValidFieldType(t)
    ensures ElementType(t).ObjectType? && t.ArrayOf? ==> ComponentType(Some(Descriptor(t))) == Some(Descriptor(ElementType(t)))
    ensures !(ElementType(t).ObjectType? && t.ArrayOf?) ==> ComponentType(Some(Descriptor(t))) == Some(Descriptor(t))
  {
    var d := Descriptor(t);
    var e := ElementType(t);
    DescriptorShape(t);
    ValidElement(t);
    var ed := Descriptor(e);
    assert forall i :: Depth(t) <= i < |d| ==> d[i] == ed[i - Depth(t)];
    if t.ArrayOf? {
      assert d[0] == '[';
      match e
      case ObjectType(n) =>
        assert d[Depth(t)] == 'L';
        assert IndexOf(d, 'L', 0) == Depth(t);
      case BaseType(c) =>
        assert |ed| == 1 && ed[0] == c && c != 'L';
        assert IndexOf(d, 'L', 0) == -1;
    } else {
      match t
      case ObjectType(_) =>
      case BaseType(c) =>
    }
  }

  lemma {:induction false} ValidElement(t: FieldType)
    requires ValidFieldType(t)
    ensures ValidFieldType(ElementType(t))
  {
    if t.ArrayOf? {
      ValidElement(t.component);
    }
  }

  // ---------------------------------------------------------------------
  // Reserved annotations
  // ---------------------------------------------------------------------

  /** The first annotation of the given type, in iteration order. */
  function FirstOfType(annotations: seq<Annotation>, annotationType: string): (r: Option<Annotation>)
    ensures r.None? <==> forall i :: 0 <= i < |annotations| ==> annotations[i].annotationType != annotationType
    ensures r.Some? ==>
      exists i :: (0 <= i < |annotations| && annotations[i] == r.value
        && forall j :: 0 <= j < i ==> annotations[j].annotationType != annotationType)
    ensures r.Some? ==> r.value.annotationType == annotationType
  {
    if |annotations| == 0 then None
    else if annotations[0].annotationType == annotationType then
      assert annotations[0] == annotations[0];
      Some(annotations[0])
    else
      var r := FirstOfType(annotations[1..], annotationType);
      if r.Some? then
        var i :| 0 <= i < |annotations[1..]| && annotations[1..][i] == r.value
          && (forall j :: 0 <= j < i ==> annotations[1..][j].annotationType != annotationType);
        assert annotations[i + 1] == r.value;
        r
      else r
  }

  predicate HasAnnotationOfType(annotations: seq<Annotation>, annotationType: string) {
    exists i :: 0 <= i < |annotations| && annotations[i].annotationType == annotationType
  }

  /** `assertAndGetSingleValue`: the value of the only element, which must be
      named `value`. */
  function SingleValue(annotation: Annotation): (r: Result<EncodedValue, Failure>)
    ensures r.Success? <==> |annotation.members| == 1 && annotation.members[0].elementName == "value"
    ensures r.Success? ==> r.value == annotation.members[0].value
    ensures |annotation.members| != 1 ==> r == Failure(WrongElementCount(|annotation.members|))
    ensures |annotation.members| == 1 && !r.Success? ==> r == Failure(WrongElementName(annotation.members[0].elementName))
  {
    var elements := annotation.members;
    if |elements| != 1 then Failure(WrongElementCount(|elements|))
    else if elements[0].elementName != "value" then Failure(WrongElementName(elements[0].elementName))
    else Success(elements[0].value)
  }

  /** The payloads of a list whose every item is a string value. */
  function StringItems(items: seq<EncodedValue>): (r: Result<seq<string>, Failure>)
    ensures r.Success? <==> forall i :: 0 <= i < |items| ==> items[i].StringValue?
    ensures r.Success? ==> |r.value| == |items|
    ensures r.Success? ==> forall i :: 0 <= i < |items| ==> r.value[i] == items[i].stringPayload
  {
    if |items| == 0 then Success([])
    else if !items[0].StringValue? then Failure(ClassCast("StringEncodedValue"))
    else
      var rest := StringItems(items[1..]);
      if rest.Failure? then rest
      else
        assert forall i :: 1 <= i < |items| ==> items[i] == items[1..][i - 1];
        Success([items[0].stringPayload] + rest.value)
  }

  /** The class-file names of a list whose every item is a type value. */
  function TypeItemNames(items: seq<EncodedValue>): (r: Result<seq<string>, Failure>)
    ensures r.Success? <==> forall i :: 0 <= i < |items| ==> items[i].TypeValue? && |items[i].typePayload| >= 2
    ensures r.Success? ==> |r.value| == |items|
    ensures r.Success? ==> forall i :: 0 <= i < |items| ==> r.value[i] == ToCfName(items[i].typePayload)
  {
    if |items| == 0 then Success([])
    else if !items[0].TypeValue? then Failure(ClassCast("TypeEncodedValue"))
    else if |items[0].typePayload| < 2 then Failure(StringIndexOutOfBounds)
    else
      var rest := TypeItemNames(items[1..]);
      if rest.Failure? then rest
      else
        assert forall i :: 1 <= i < |items| ==> items[i] == items[1..][i - 1];
        Success([ToCfName(items[0].typePayload)] + rest.value)
  }

  /** The array payload of a reserved annotation's single `value` element. */
  function ArrayOfSingleValue(annotation: Annotation): Result<seq<EncodedValue>, Failure> {
    var v :- SingleValue(annotation);
    if v.ArrayValue? then Success(v.items) else Failure(ClassCast("ArrayEncodedValue"))
  }

  /** `getSignature`: the in-order concatenation of the first Signature
      annotation's string array, or null when there is none. */
  function GetSignature(annotations: seq<Annotation>): (r: Result<Option<string>, Failure>)
    ensures r == Success(None) <==> !HasAnnotationOfType(annotations, TYPE_DALVIK_SIGNATURE)
    ensures r.Success? && r.value.Some? ==>
      var a := FirstOfType(annotations, TYPE_DALVIK_SIGNATURE).value;
      && ArrayOfSingleValue(a).Success?
      && StringItems(ArrayOfSingleValue(a).value).Success?
      && r.value.value == Concat(StringItems(ArrayOfSingleValue(a).value).value)
    ensures HasAnnotationOfType(annotations, TYPE_DALVIK_SIGNATURE) ==>
      var a := FirstOfType(annotations, TYPE_DALVIK_SIGNATURE).value;
      (r.Success? <==> ArrayOfSingleValue(a).Success? && StringItems(ArrayOfSingleValue(a).value).Success?)
  {
    match FirstOfType(annotations, TYPE_DALVIK_SIGNATURE)
    case None => Success(None)
    case Some(a) =>
      var items :- ArrayOfSingleValue(a);
      var parts :- StringItems(items);
      Success(Some(Concat(parts)))
  }

  /** `getExceptions`: the first Throws annotation's type array mapped through
      `toCfName`, or null when there is none. */
  function GetExceptions(annotations: seq<Annotation>): (r: Result<Option<seq<string>>, Failure>)
    ensures r == Success(None) <==> !HasAnnotationOfType(annotations, TYPE_DALVIK_THROWS)
    ensures r.Success? && r.value.Some? ==>
      var a := FirstOfType(annotations, TYPE_DALVIK_THROWS).value;
      && ArrayOfSingleValue(a).Success?
      && var items := ArrayOfSingleValue(a).value;
      && |r.value.value| == |items|
      && forall i :: 0 <= i < |items| ==>
           (items[i].TypeValue? && |items[i].typePayload| >= 2 && r.value.value[i] == ToCfName(items[i].typePayload))
    ensures HasAnnotationOfType(annotations, TYPE_DALVIK_THROWS) ==>
      var a := FirstOfType(annotations, TYPE_DALVIK_THROWS).value;
      (r.Success? <==> ArrayOfSingleValue(a).Success? && TypeItemNames(ArrayOfSingleValue(a).value).Success?)
  {
    match FirstOfType(annotations, TYPE_DALVIK_THROWS)
    case None => Success(None)
    case Some(a) =>
      var items :- ArrayOfSingleValue(a);
      var names :- TypeItemNames(items);
      Success(Some(names))
  }
}
