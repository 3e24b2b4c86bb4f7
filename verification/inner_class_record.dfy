/** The inner-class metadata carried by a dex `InnerClass` annotation
    (InnerClassRecord.java): a simple name and the inner-class access flags.
    Its absence marks a top-level class or an anonymous one. */
module InnerClasses {
  import opened Wrappers
  import opened Dex
  import opened TypeUtils

  /** The immutable record: both fields are final in the source. */
  datatype InnerClassRecord = InnerClassRecord(name: string, accessFlags: Int32)

  /** The record the scan yields once every element is read: one exists only
      when a name was seen and the flags are not the sentinel -1. */
  function Outcome(name: Option<string>, accessFlags: Int32): (r: Option<InnerClassRecord>)
    ensures r.Some? <==> name.Some? && accessFlags != -1
    ensures r.Some? ==> r.value.name == name.value && r.value.accessFlags == accessFlags
  {
    if name.Some? && accessFlags != -1 then Some(InnerClassRecord(name.value, accessFlags)) else None
  }

  /** The element loop of `findIn(Annotation)`: a null `name` returns null at
      once, a `name` must otherwise hold a string and `accessFlags` an int
      (anything else is a class-cast failure), and other elements are skipped. */
  function Scan(elements: seq<Element>, name: Option<string>, accessFlags: Int32): (r: Result<Option<InnerClassRecord>, Failure>)
    ensures r.Success? && r.value.Some? ==> r.value.value.accessFlags != -1
    ensures r.Success? && r.value.Some? ==>
      || name == Some(r.value.value.name)
      || exists i :: 0 <= i < |elements| && elements[i] == Element("name", StringValue(r.value.value.name))
    decreases |elements|
  {
    if |elements| == 0 then Success(Outcome(name, accessFlags))
    else
      var e := elements[0];
      if e.elementName == "name" then
        if e.value.NullValue? then Success(None)
        else if !e.value.StringValue? then Failure(ClassCast("StringEncodedValue"))
        else
          assert elements[0] == Element("name", StringValue(e.value.stringPayload));
          ScanTail(elements);
          Scan(elements[1..], Some(e.value.stringPayload), accessFlags)
      else if e.elementName == "accessFlags" then
        if !e.value.IntValue? then Failure(ClassCast("IntEncodedValue"))
        else
          ScanTail(elements);
          Scan(elements[1..], name, e.value.intPayload)
      else
        ScanTail(elements);
        Scan(elements[1..], name, accessFlags)
  }

  /** The elements after the first are elements of the whole list. */
  lemma ScanTail(elements: seq<Element>)
    requires |elements| > 0
    ensures forall i :: 0 <= i < |elements| - 1 ==> elements[1..][i] == elements[i + 1]
  {
  }

  /** `findIn(Annotation)`: the scan from "no name" and flags -1. A record
      found carries flags other than -1 and the string of one of the
      annotation's `name` elements; the only failure is a cast failure on
      elements that are not well typed. */
  function FindIn(annotation: Annotation): (r: Result<Option<InnerClassRecord>, Failure>)
    ensures r.Failure? ==> r.error.ClassCast? && !WellTyped(annotation.members)
    ensures r.Success? && r.value.Some? ==> r.value.value.accessFlags != -1
    ensures r.Success? && r.value.Some? ==>
      exists i :: 0 <= i < |annotation.members| && annotation.members[i] == Element("name", StringValue(r.value.value.name))
  {
    var r := Scan(annotation.members, None, -1);
    if r.Failure? then
      ScanFailsOnlyOnCast(annotation.members, None, -1);
      r
    else r
  }

  /** `findIn(ClassDef)`: the first InnerClass annotation decides; without
      one there is no record. */
  function FindInClass(classDef: ClassDef): (r: Result<Option<InnerClassRecord>, Failure>)
    ensures !HasAnnotationOfType(classDef.classAnnotations, TYPE_DALVIK_INNER_CLASS) ==> r == Success(None)
  {
    match FirstOfType(classDef.classAnnotations, TYPE_DALVIK_INNER_CLASS)
    case None => Success(None)
    case Some(a) => FindIn(a)
  }

  // ---------------------------------------------------------------------
  // Reference definitions
  // ---------------------------------------------------------------------

  /** The value of the last element with the given name. */
  function LastValueOf(elements: seq<Element>, key: string): Option<EncodedValue> {
    if |elements| == 0 then None
    else
      var later := LastValueOf(elements[1..], key);
      if later.Some? then later
      else if elements[0].elementName == key then Some(elements[0].value)
      else None
  }

  /** Every `name` element holds a string or null and every `accessFlags`
      element holds an int. */
  predicate WellTyped(elements: seq<Element>) {
    forall i :: 0 <= i < |elements| ==> ElementWellTyped(elements[i])
  }

  predicate ElementWellTyped(e: Element) {
    && (e.elementName == "name" ==> e.value.StringValue? || e.value.NullValue?)
    && (e.elementName == "accessFlags" ==> e.value.IntValue?)
  }

  predicate NoNullName(elements: seq<Element>) {
    forall i :: 0 <= i < |elements| && elements[i].elementName == "name" ==> !elements[i].value.NullValue?
  }

  /** The elements the scan reads. */
  predicate IsRelevant(e: Element) {
    e.elementName == "name" || e.elementName == "accessFlags"
  }

  function Relevant(elements: seq<Element>): (r: seq<Element>)
    ensures forall i :: 0 <= i < |r| ==> IsRelevant(r[i])
  {
    if |elements| == 0 then []
    else if IsRelevant(elements[0]) then [elements[0]] + Relevant(elements[1..])
    else Relevant(elements[1..])
  }

  function NameAfter(elements: seq<Element>, name: Option<string>): Option<string> {
    match LastValueOf(elements, "name")
    case Some(StringValue(s)) => Some(s)
    case _ => name
  }

  function FlagsAfter(elements: seq<Element>, accessFlags: Int32): Int32 {
    match LastValueOf(elements, "accessFlags")
    case Some(IntValue(i)) => i
    case _ => accessFlags
  }

  // ---------------------------------------------------------------------
  // Properties
  // ---------------------------------------------------------------------

  /** With well-typed elements and no null name, the scan never fails and
      yields a record exactly when a name was seen and the last accessFlags
      value is not -1; the record holds the last name and the last flags. */
  lemma {:induction false} ScanWellTyped(elements: seq<Element>, name: Option<string>, accessFlags: Int32)
    requires WellTyped(elements) && NoNullName(elements)
    ensures Scan(elements, name, accessFlags) == Success(Outcome(NameAfter(elements, name), FlagsAfter(elements, accessFlags)))
    decreases |elements|
  {
    if |elements| > 0 {
      var e := elements[0];
      var rest := elements[1..];
      assert WellTyped(rest) && NoNullName(rest) by {
        forall i | 0 <= i < |rest| ensures rest[i] == elements[i + 1] { }
      }
      assert ElementWellTyped(e);
      LastValueKeepsKey(rest, "name");
      LastValueKeepsKey(rest, "accessFlags");
      if e.elementName == "name" {
        ScanWellTyped(rest, Some(e.value.stringPayload), accessFlags);
      } else if e.elementName == "accessFlags" {
        ScanWellTyped(rest, name, e.value.intPayload);
      } else {
        ScanWellTyped(rest, name, accessFlags);
      }
    }
  }

  /** `findIn(annotation)` returns a record iff a string `name` and an
      `accessFlags` other than -1 were read; the record holds exactly those
      values. */
  lemma FindInRecord(annotation: Annotation)
    requires WellTyped(annotation.members) && NoNullName(annotation.members)
    ensures FindIn(annotation).Success?
    ensures FindIn(annotation).value.Some? <==>
      LastValueOf(annotation.members, "name").Some? && FlagsAfter(annotation.members, -1) != -1
    ensures FindIn(annotation).value.Some? ==>
      && LastValueOf(annotation.members, "name") == Some(StringValue(FindIn(annotation).value.value.name))
      && LastValueOf(annotation.members, "accessFlags") == Some(IntValue(FindIn(annotation).value.value.accessFlags))
  {
    ScanWellTyped(annotation.members, None, -1);
    LastValueKeepsKey(annotation.members, "name");
    LastValueKeepsKey(annotation.members, "accessFlags");
  }

  lemma {:induction false} LastValueKeepsKey(elements: seq<Element>, key: string)
    ensures LastValueOf(elements, key).Some? ==>
      exists i :: 0 <= i < |elements| && elements[i].elementName == key && elements[i].value == LastValueOf(elements, key).value
    decreases |elements|
  {
    if |elements| > 0 {
      LastValueKeepsKey(elements[1..], key);
      var later := LastValueOf(elements[1..], key);
      if later.Some? {
        var i :| 0 <= i < |elements[1..]| && elements[1..][i].elementName == key && elements[1..][i].value == later.value;
        assert elements[i + 1] == elements[1..][i];
      } else if elements[0].elementName == key {
        assert elements[0].elementName == key;
      }
    }
  }

  /** A `name` element holding null (an anonymous class) ends the scan with no
      record, whatever follows it. */
  lemma {:induction false} NullNameReturnsNull(elements: seq<Element>, i: nat, name: Option<string>, accessFlags: Int32)
    requires i < |elements| && elements[i] == Element("name", NullValue)
    requires WellTyped(elements[..i])
    ensures Scan(elements, name, accessFlags) == Success(None)
    decreases i
  {
    if i > 0 {
      var e := elements[0];
      assert e == elements[..i][0];
      var rest := elements[1..];
      assert rest[..i - 1] == elements[..i][1..];
      assert WellTyped(rest[..i - 1]) by {
        forall k | 0 <= k < i - 1 ensures ElementWellTyped(rest[k]) {
          assert rest[k] == elements[..i][k + 1];
        }
      }
      if e.elementName == "name" {
        if !e.value.NullValue? {
          NullNameReturnsNull(rest, i - 1, Some(e.value.stringPayload), accessFlags);
        }
      } else if e.elementName == "accessFlags" {
        NullNameReturnsNull(rest, i - 1, name, e.value.intPayload);
      } else {
        NullNameReturnsNull(rest, i - 1, name, accessFlags);
      }
    }
  }

  /** The scan fails only on an element of the wrong kind. */
  lemma {:induction false} ScanFailsOnlyOnCast(elements: seq<Element>, name: Option<string>, accessFlags: Int32)
    requires Scan(elements, name, accessFlags).Failure?
    ensures !WellTyped(elements)
    ensures Scan(elements, name, accessFlags).error.ClassCast?
    decreases |elements|
  {
    var e := elements[0];
    var rest := elements[1..];
    if WellTyped(elements) {
      assert WellTyped(rest) by {
        forall i | 0 <= i < |rest| ensures rest[i] == elements[i + 1] { }
      }
    }
    if e.elementName == "name" {
      if e.value.StringValue? {
        ScanFailsOnlyOnCast(rest, Some(e.value.stringPayload), accessFlags);
      }
    } else if e.elementName == "accessFlags" {
      if e.value.IntValue? {
        ScanFailsOnlyOnCast(rest, name, e.value.intPayload);
      }
    } else {
      ScanFailsOnlyOnCast(rest, name, accessFlags);
    }
  }

  /** Elements other than `name` and `accessFlags` never change the answer. */
  lemma {:induction false} ScanIgnoresOtherElements(elements: seq<Element>, name: Option<string>, accessFlags: Int32)
    ensures Scan(elements, name, accessFlags) == Scan(Relevant(elements), name, accessFlags)
    decreases |elements|
  {
    if |elements| > 0 {
      var e := elements[0];
      var rest := elements[1..];
      if IsRelevant(e) {
        var r := Relevant(elements);
        assert r == [e] + Relevant(rest);
        assert r[0] == e && r[1..] == Relevant(rest);
        if e.elementName == "name" {
          if e.value.StringValue? {
            ScanIgnoresOtherElements(rest, Some(e.value.stringPayload), accessFlags);
          }
        } else {
          if e.value.IntValue? {
            ScanIgnoresOtherElements(rest, name, e.value.intPayload);
          }
        }
      } else {
        ScanIgnoresOtherElements(rest, name, accessFlags);
      }
    }
  }

  /** `findIn(ClassDef)` answers from the first InnerClass annotation: any
      annotations after it, including further InnerClass ones, are ignored. */
  lemma FindInClassUsesFirst(classDef: ClassDef, i: nat)
    requires i < |classDef.classAnnotations|
    requires classDef.classAnnotations[i].annotationType == TYPE_DALVIK_INNER_CLASS
    requires forall j :: 0 <= j < i ==> classDef.classAnnotations[j].annotationType != TYPE_DALVIK_INNER_CLASS
    ensures FindInClass(classDef) == FindIn(classDef.classAnnotations[i])
  {
    var r := FirstOfType(classDef.classAnnotations, TYPE_DALVIK_INNER_CLASS);
    var k :| 0 <= k < |classDef.classAnnotations| && classDef.classAnnotations[k] == r.value
      && forall j :: 0 <= j < k ==> classDef.classAnnotations[j].annotationType != TYPE_DALVIK_INNER_CLASS;
    assert k == i;
  }
}
