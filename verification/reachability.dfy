/** The reachability analyzer (`searchReferencedInaccessibleClasses`): the
    inaccessible classes that the accessible surface mentions, directly or
    through the superclass and interface edges of other inaccessible classes.

    The source walks recursively with no visited set and terminates only on an
    acyclic superclass/interface graph. Here the walk is a worklist with a
    visited map; its result is proved to be the least set that contains every
    inaccessible class a seed names and is closed under the edges of its own
    members, which is exactly what the recursive walk collects whenever it
    terminates. */
module Reachability {
  import opened Wrappers
  import opened Dex
  import opened AccessFlags
  import opened TypeUtils
  import opened Merge

  const DALVIK_ANNOTATION_PREFIX := "Ldalvik/annotation"

  // ---------------------------------------------------------------------
  // Seeds: the type names the accessible surface mentions
  // ---------------------------------------------------------------------

  /** The annotation walk skips the platform's internal annotations, except
      Signature, Throws and PermittedSubclasses, which hold real type names. */
  predicate IsWalked(annotationType: string) {
    || annotationType == TYPE_DALVIK_SIGNATURE
    || annotationType == TYPE_DALVIK_THROWS
    || annotationType == TYPE_DALVIK_PERMITTED_SUBCLASSES
    || !StartsWith(annotationType, DALVIK_ANNOTATION_PREFIX)
  }

  /** The type names an encoded value mentions: nested annotation types, type
      values, and the owner and type of enum, field and method references. */
  function ValueRefs(v: EncodedValue): (r: seq<string>)
    ensures v.AnnotationValue? ==> v.annotationType in r
    ensures v.AnnotationValue? ==> forall i, t :: 0 <= i < |v.elements| && t in ValueRefs(v.elements[i].value) ==> t in r
    ensures v.ArrayValue? ==> forall i, t :: 0 <= i < |v.items| && t in ValueRefs(v.items[i]) ==> t in r
    ensures v.TypeValue? ==> r == [v.typePayload]
    ensures v.EnumValue? ==> r == [v.enumField.fieldOwner, v.enumField.fieldType]
    ensures v.FieldValue? ==> r == [v.fieldPayload.fieldOwner, v.fieldPayload.fieldType]
    ensures v.MethodValue? ==> r == [v.methodPayload.methodOwner, v.methodPayload.returnType] + v.methodPayload.parameterTypes
    ensures NamesNothing(v) ==> r == []
    decreases v, 1
  {
    match v
    case AnnotationValue(t, elements) => [t] + ElementRefs(v, elements)
    case ArrayValue(items) => ItemRefs(v, items)
    case TypeValue(t) => [t]
    case EnumValue(f) => [f.fieldOwner, f.fieldType]
    case FieldValue(f) => [f.fieldOwner, f.fieldType]
    case MethodValue(r) => [r.methodOwner, r.returnType] + r.parameterTypes
    case _ => []
  }

  /** The constant kinds and NULL: values that name no type. */
  predicate NamesNothing(v: EncodedValue) {
    || v.BooleanValue? || v.ByteValue? || v.ShortValue? || v.CharValue? || v.IntValue?
    || v.LongValue? || v.FloatValue? || v.DoubleValue? || v.StringValue? || v.NullValue?
  }

  /** What an encoded value names, stated case by case and independently of
      the order of the walk: a nested annotation its type and whatever its
      element values name, an array whatever its items name, a type value
      that type, an enum or field reference its owner and type, a method
      reference its owner, return type and parameter types; nothing else
      names a type. */
  ghost predicate Mentions(v: EncodedValue, t: string)
    decreases v
  {
    match v
    case AnnotationValue(a, es) => t == a || exists e :: e in es && Mentions(e.value, t)
    case ArrayValue(items) => exists x :: x in items && Mentions(x, t)
    case TypeValue(x) => t == x
    case EnumValue(f) => t == f.fieldOwner || t == f.fieldType
    case FieldValue(f) => t == f.fieldOwner || t == f.fieldType
    case MethodValue(mr) => t == mr.methodOwner || t == mr.returnType || t in mr.parameterTypes
    case _ => false
  }

  /** The walk over an encoded value reaches exactly the names it mentions. */
  lemma {:induction false} ValueRefsExact(v: EncodedValue, t: string)
    ensures t in ValueRefs(v) <==> Mentions(v, t)
    decreases v, 1
  {
    match v
    case AnnotationValue(_, _) => NestedAnnotationRefsExact(v, t);
    case ArrayValue(_) => ArrayRefsExact(v, t);
    case _ =>
  }

  /** The nested-annotation case of `ValueRefsExact`. */
  lemma {:induction false} NestedAnnotationRefsExact(v: EncodedValue, t: string)
    requires v.AnnotationValue?
    ensures t in ValueRefs(v) <==> Mentions(v, t)
    decreases v, 0
  {
    var es := v.elements;
    if t in ValueRefs(v) && t != v.annotationType {
      assert t in ElementRefs(v, es);
      var i :| 0 <= i < |es| && t in ValueRefs(es[i].value);
      assert es[i].value < es[i];
      ValueRefsExact(es[i].value, t);
      assert es[i] in es;
    }
    if Mentions(v, t) && t != v.annotationType {
      var e :| e in es && Mentions(e.value, t);
      assert e.value < e;
      ValueRefsExact(e.value, t);
      var i :| 0 <= i < |es| && es[i] == e;
      assert t in ElementRefs(v, es);
    }
  }

  /** The array case of `ValueRefsExact`. */
  lemma {:induction false} ArrayRefsExact(v: EncodedValue, t: string)
    requires v.ArrayValue?
    ensures t in ValueRefs(v) <==> Mentions(v, t)
    decreases v, 0
  {
    var items := v.items;
    if t in ValueRefs(v) {
      var i :| 0 <= i < |items| && t in ValueRefs(items[i]);
      ValueRefsExact(items[i], t);
      assert items[i] in items;
    }
    if Mentions(v, t) {
      var x :| x in items && Mentions(x, t);
      ValueRefsExact(x, t);
      var i :| 0 <= i < |items| && items[i] == x;
    }
  }

  /** The names the elements' values mention, in order. */
  function ElementRefs(ghost parent: EncodedValue, elements: seq<Element>): (r: seq<string>)
    requires forall i :: 0 <= i < |elements| ==> elements[i] < parent
    ensures forall i, t :: 0 <= i < |elements| && t in ValueRefs(elements[i].value) ==> t in r
    ensures forall t :: t in r ==> exists i :: 0 <= i < |elements| && t in ValueRefs(elements[i].value)
    decreases parent, 0, |elements|
  {
    if |elements| == 0 then []
    else
      assert elements[0].value < elements[0];
      var rest := ElementRefs(parent, elements[1..]);
      assert forall i :: 1 <= i < |elements| ==> elements[i] == elements[1..][i - 1];
      ValueRefs(elements[0].value) + rest
  }

  /** The names the array items mention, in order. */
  function ItemRefs(ghost parent: EncodedValue, items: seq<EncodedValue>): (r: seq<string>)
    requires forall i :: 0 <= i < |items| ==> items[i] < parent
    ensures forall i, t :: 0 <= i < |items| && t in ValueRefs(items[i]) ==> t in r
    ensures forall t :: t in r ==> exists i :: 0 <= i < |items| && t in ValueRefs(items[i])
    decreases parent, 0, |items|
  {
    if |items| == 0 then []
    else
      var rest := ItemRefs(parent, items[1..]);
      assert forall i :: 1 <= i < |items| ==> items[i] == items[1..][i - 1];
      ValueRefs(items[0]) + rest
  }

  /** The type names one annotation contributes: its type and every name in
      its elements, or nothing when it is skipped. */
  function OneAnnotationRefs(a: Annotation): seq<string> {
    if IsWalked(a.annotationType) then
      [a.annotationType] + ElementRefs(AnnotationValue(a.annotationType, a.members), a.members)
    else []
  }

  /** The annotation overload of `addToReferencedRecursive`. */
  function AnnotationRefs(annotations: seq<Annotation>): (r: seq<string>)
    ensures forall i :: 0 <= i < |annotations| && IsWalked(annotations[i].annotationType) ==>
      annotations[i].annotationType in r
    ensures forall i, t :: 0 <= i < |annotations| && t in OneAnnotationRefs(annotations[i]) ==> t in r
    ensures forall t :: t in r ==>
      exists i :: 0 <= i < |annotations| && IsWalked(annotations[i].annotationType) && t in OneAnnotationRefs(annotations[i])
  {
    if |annotations| == 0 then []
    else
      var rest := AnnotationRefs(annotations[1..]);
      AnnotationRefsCons(annotations, rest);
      OneAnnotationRefs(annotations[0]) + rest
  }

  lemma AnnotationRefsCons(annotations: seq<Annotation>, rest: seq<string>)
    requires |annotations| > 0
    requires forall i, t :: 0 <= i < |annotations| - 1 && t in OneAnnotationRefs(annotations[1..][i]) ==> t in rest
    requires forall t :: t in rest ==>
      exists i :: 0 <= i < |annotations| - 1 && IsWalked(annotations[1..][i].annotationType) && t in OneAnnotationRefs(annotations[1..][i])
    ensures forall i, t :: 0 <= i < |annotations| && t in OneAnnotationRefs(annotations[i]) ==>
      t in OneAnnotationRefs(annotations[0]) + rest
    ensures forall t :: t in OneAnnotationRefs(annotations[0]) + rest ==>
      exists i :: 0 <= i < |annotations| && IsWalked(annotations[i].annotationType) && t in OneAnnotationRefs(annotations[i])
  {
    assert forall i :: 1 <= i < |annotations| ==> annotations[i] == annotations[1..][i - 1];
    forall t | t in OneAnnotationRefs(annotations[0]) + rest
      ensures exists i :: 0 <= i < |annotations| && IsWalked(annotations[i].annotationType) && t in OneAnnotationRefs(annotations[i])
    {
      if t in OneAnnotationRefs(annotations[0]) {
        assert IsWalked(annotations[0].annotationType);
      } else {
        var i :| 0 <= i < |annotations| - 1 && IsWalked(annotations[1..][i].annotationType) && t in OneAnnotationRefs(annotations[1..][i]);
        assert annotations[i + 1] == annotations[1..][i];
      }
    }
  }

  function OptionRefs(t: Option<string>): seq<string> {
    if t.Some? then [t.value] else []
  }

  /** What one parameter names: its type and its annotations' names. */
  predicate ParameterMentions(p: Parameter, t: string) {
    t == p.paramType || t in AnnotationRefs(p.paramAnnotations)
  }

  /** What one field names: its type and its annotations' names, if it is
      accessible; an inaccessible field names nothing. */
  predicate FieldMentions(f: Field, t: string) {
    !IsInaccessible(f.fieldFlags) && (t == f.fieldType || t in AnnotationRefs(f.fieldAnnotations))
  }

  /** What one method names: its return type, what its parameters name and
      its annotations' names, if it is accessible; otherwise nothing. */
  predicate MethodMentions(m: Method, t: string) {
    && !IsInaccessible(m.methodFlags)
    && (|| t == m.returnType
        || (exists j :: 0 <= j < |m.parameters| && ParameterMentions(m.parameters[j], t))
        || t in AnnotationRefs(m.methodAnnotations))
  }

  /** What an accessible class exposes to the walk: its superclass, its
      interfaces, its annotations' names, and what its fields and methods
      name. */
  predicate ClassMentions(c: ClassDef, t: string) {
    || c.superclass == Some(t)
    || t in c.interfaces
    || t in AnnotationRefs(c.classAnnotations)
    || (exists i :: 0 <= i < |c.fields| && FieldMentions(c.fields[i], t))
    || (exists i :: 0 <= i < |c.methods| && MethodMentions(c.methods[i], t))
  }

  function ParameterRefs(ps: seq<Parameter>): (r: seq<string>)
    ensures forall i :: 0 <= i < |ps| ==> ps[i].paramType in r
    ensures forall i, t :: 0 <= i < |ps| && ParameterMentions(ps[i], t) ==> t in r
  {
    if |ps| == 0 then []
    else
      var rest := ParameterRefs(ps[1..]);
      assert forall i :: 1 <= i < |ps| ==> ps[i] == ps[1..][i - 1];
      [ps[0].paramType] + AnnotationRefs(ps[0].paramAnnotations) + rest
  }

  /** An accessible field contributes its type and annotations. */
  function FieldRefs(fs: seq<Field>): (r: seq<string>)
    ensures forall i :: 0 <= i < |fs| && !IsInaccessible(fs[i].fieldFlags) ==> fs[i].fieldType in r
    ensures forall i, t :: 0 <= i < |fs| && FieldMentions(fs[i], t) ==> t in r
  {
    if |fs| == 0 then []
    else
      var rest := FieldRefs(fs[1..]);
      assert forall i :: 1 <= i < |fs| ==> fs[i] == fs[1..][i - 1];
      if IsInaccessible(fs[0].fieldFlags) then rest
      else [fs[0].fieldType] + AnnotationRefs(fs[0].fieldAnnotations) + rest
  }

  /** An accessible method contributes its return type, parameter types,
      parameter annotations and annotations. */
  function MethodRefs(ms: seq<Method>): (r: seq<string>)
    ensures forall i :: 0 <= i < |ms| && !IsInaccessible(ms[i].methodFlags) ==> ms[i].returnType in r
    ensures forall i, j :: 0 <= i < |ms| && !IsInaccessible(ms[i].methodFlags) && 0 <= j < |ms[i].parameters| ==>
      ms[i].parameters[j].paramType in r
    ensures forall i, t :: 0 <= i < |ms| && MethodMentions(ms[i], t) ==> t in r
  {
    if |ms| == 0 then []
    else
      var rest := MethodRefs(ms[1..]);
      assert forall i :: 1 <= i < |ms| ==> ms[i] == ms[1..][i - 1];
      if IsInaccessible(ms[0].methodFlags) then rest
      else
        [ms[0].returnType] + ParameterRefs(ms[0].parameters) + AnnotationRefs(ms[0].methodAnnotations) + rest
  }

  /** Everything the outer loop walks for one accessible class. */
  function ClassRefs(c: ClassDef): (r: seq<string>)
    ensures c.superclass.Some? ==> c.superclass.value in r
    ensures forall t :: t in c.interfaces ==> t in r
    ensures forall i :: 0 <= i < |c.fields| && !IsInaccessible(c.fields[i].fieldFlags) ==> c.fields[i].fieldType in r
    ensures forall i :: 0 <= i < |c.methods| && !IsInaccessible(c.methods[i].methodFlags) ==> c.methods[i].returnType in r
    ensures forall i, j :: 0 <= i < |c.methods| && !IsInaccessible(c.methods[i].methodFlags) && 0 <= j < |c.methods[i].parameters| ==>
      c.methods[i].parameters[j].paramType in r
  {
    OptionRefs(c.superclass) + AnnotationRefs(c.classAnnotations) + c.interfaces
      + FieldRefs(c.fields) + MethodRefs(c.methods)
  }

  /** Every name the parameter walk yields is named by one of the parameters. */
  lemma {:induction false} ParameterRefsExact(ps: seq<Parameter>, t: string)
    requires t in ParameterRefs(ps)
    ensures exists i :: 0 <= i < |ps| && ParameterMentions(ps[i], t)
  {
    if t !in [ps[0].paramType] + AnnotationRefs(ps[0].paramAnnotations) {
      ParameterRefsExact(ps[1..], t);
      var i :| 0 <= i < |ps| - 1 && ParameterMentions(ps[1..][i], t);
      assert ps[i + 1] == ps[1..][i];
    } else {
      assert ParameterMentions(ps[0], t);
    }
  }

  /** Every name the field walk yields is named by an accessible field. */
  lemma {:induction false} FieldRefsExact(fs: seq<Field>, t: string)
    requires t in FieldRefs(fs)
    ensures exists i :: 0 <= i < |fs| && FieldMentions(fs[i], t)
  {
    if IsInaccessible(fs[0].fieldFlags) || t !in [fs[0].fieldType] + AnnotationRefs(fs[0].fieldAnnotations) {
      FieldRefsExact(fs[1..], t);
      var i :| 0 <= i < |fs| - 1 && FieldMentions(fs[1..][i], t);
      assert fs[i + 1] == fs[1..][i];
    } else {
      assert FieldMentions(fs[0], t);
    }
  }

  /** Every name the method walk yields is named by an accessible method. */
  lemma {:induction false} MethodRefsExact(ms: seq<Method>, t: string)
    requires t in MethodRefs(ms)
    ensures exists i :: 0 <= i < |ms| && MethodMentions(ms[i], t)
  {
    var m := ms[0];
    if IsInaccessible(m.methodFlags) || t !in [m.returnType] + ParameterRefs(m.parameters) + AnnotationRefs(m.methodAnnotations) {
      MethodRefsExact(ms[1..], t);
      var i :| 0 <= i < |ms| - 1 && MethodMentions(ms[1..][i], t);
      assert ms[i + 1] == ms[1..][i];
    } else {
      if t in ParameterRefs(m.parameters) {
        ParameterRefsExact(m.parameters, t);
      }
      assert MethodMentions(ms[0], t);
    }
  }

  /** The outer loop's walk over one class yields exactly what the class
      exposes. */
  lemma ClassRefsExact(c: ClassDef, t: string)
    ensures t in ClassRefs(c) <==> ClassMentions(c, t)
  {
    if t in FieldRefs(c.fields) {
      FieldRefsExact(c.fields, t);
    }
    if t in MethodRefs(c.methods) {
      MethodRefsExact(c.methods, t);
    }
  }

  /** The seeds of phase A: the names mentioned by every accessible class. */
  function Seeds(m: map<string, ClassDef>): set<string> {
    set k, t | k in m && !IsInaccessible(m[k].classFlags) && t in ClassRefs(m[k]) :: t
  }

  /** An accessible class seeds the walk with its superclass, interfaces and
      annotation types. */
  lemma SeedsIncludeHeader(m: map<string, ClassDef>, c: ClassDef)
    requires c in m.Values && !IsInaccessible(c.classFlags)
    ensures c.superclass.Some? ==> c.superclass.value in Seeds(m)
    ensures forall t :: t in c.interfaces ==> t in Seeds(m)
    ensures forall t :: t in AnnotationRefs(c.classAnnotations) ==> t in Seeds(m)
  {
    var k :| k in m && m[k] == c;
    ClassRefsInSeeds(m, k);
  }

  /** An accessible class seeds the walk with the types of its accessible
      fields and the return and parameter types of its accessible methods. */
  lemma SeedsIncludeMembers(m: map<string, ClassDef>, c: ClassDef)
    requires c in m.Values && !IsInaccessible(c.classFlags)
    ensures forall i :: 0 <= i < |c.fields| && !IsInaccessible(c.fields[i].fieldFlags) ==> c.fields[i].fieldType in Seeds(m)
    ensures forall i :: 0 <= i < |c.methods| && !IsInaccessible(c.methods[i].methodFlags) ==> c.methods[i].returnType in Seeds(m)
    ensures forall i, j ::
      0 <= i < |c.methods| && !IsInaccessible(c.methods[i].methodFlags) && 0 <= j < |c.methods[i].parameters| ==>
      c.methods[i].parameters[j].paramType in Seeds(m)
    ensures forall i, t :: 0 <= i < |c.fields| && FieldMentions(c.fields[i], t) ==> t in Seeds(m)
    ensures forall i, t :: 0 <= i < |c.methods| && MethodMentions(c.methods[i], t) ==> t in Seeds(m)
  {
    var k :| k in m && m[k] == c;
    ClassRefsInSeeds(m, k);
  }

  /** A name is a seed exactly when some accessible class of the map exposes
      it; inaccessible classes and members contribute nothing. */
  lemma SeedsExact(m: map<string, ClassDef>, t: string)
    ensures t in Seeds(m) <==> exists k :: k in m && !IsInaccessible(m[k].classFlags) && ClassMentions(m[k], t)
  {
    if t in Seeds(m) {
      var k :| k in m && !IsInaccessible(m[k].classFlags) && t in ClassRefs(m[k]);
      ClassRefsExact(m[k], t);
    }
    if exists k :: k in m && !IsInaccessible(m[k].classFlags) && ClassMentions(m[k], t) {
      var k :| k in m && !IsInaccessible(m[k].classFlags) && ClassMentions(m[k], t);
      ClassRefsExact(m[k], t);
    }
  }

  /** Every name an accessible class mentions is a seed. */
  lemma ClassRefsInSeeds(m: map<string, ClassDef>, k: string)
    requires k in m && !IsInaccessible(m[k].classFlags)
    ensures forall t :: t in ClassRefs(m[k]) ==> t in Seeds(m)
    ensures forall t :: t in AnnotationRefs(m[k].classAnnotations) ==> t in ClassRefs(m[k])
  {
  }

  // ---------------------------------------------------------------------
  // The edge relation
  // ---------------------------------------------------------------------

  /** The edges the recursive walk follows out of an inaccessible class. */
  function Supertypes(c: ClassDef): seq<string> {
    OptionRefs(c.superclass) + c.interfaces
  }

  /** The map key a type name is looked up under: its component type. */
  function LookupKey(t: string): string {
    ComponentType(Some(t)).value
  }

  /** The name resolves, after component-type reduction, to an inaccessible
      class of the map. */
  predicate LeadsInaccessible(m: map<string, ClassDef>, t: string) {
    LookupKey(t) in m && IsInaccessible(m[LookupKey(t)].classFlags)
  }

  /** Every entry is the map's own inaccessible class under its own type. */
  predicate Sound(m: map<string, ClassDef>, r: map<string, ClassDef>) {
    forall k :: k in r ==> k in m && r[k] == m[k] && r[k].classType == k && IsInaccessible(r[k].classFlags)
  }

  /** Every inaccessible class a seed names is in `S`. */
  predicate Covers(m: map<string, ClassDef>, seeds: set<string>, S: set<string>) {
    forall t :: t in seeds && LeadsInaccessible(m, t) ==> LookupKey(t) in S
  }

  /** Every inaccessible supertype of a class in `S` is in `S`. */
  predicate Closed(m: map<string, ClassDef>, S: set<string>) {
    forall k, s :: k in S && k in m && s in Supertypes(m[k]) && LeadsInaccessible(m, s) ==> LookupKey(s) in S
  }

  // ---------------------------------------------------------------------
  // Phase A: the walk
  // ---------------------------------------------------------------------

  /** Every seed and every edge out of a visited class that leads to an
      inaccessible class is either visited already or still pending. */
  predicate Pending(m: map<string, ClassDef>, seeds: set<string>, r: map<string, ClassDef>, work: set<string>) {
    && (forall t :: t in seeds && LeadsInaccessible(m, t) ==> LookupKey(t) in r || t in work)
    && (forall k, s :: k in r && k in m && s in Supertypes(m[k]) && LeadsInaccessible(m, s) ==>
          LookupKey(s) in r || s in work)
  }

  /** Everything visited or pending lies in every covering closed set. */
  ghost predicate BelowEveryClosure(m: map<string, ClassDef>, seeds: set<string>, r: map<string, ClassDef>, work: set<string>) {
    forall S :: Covers(m, seeds, S) && Closed(m, S) ==>
      r.Keys <= S && forall t :: t in work && LeadsInaccessible(m, t) ==> LookupKey(t) in S
  }

  /** The step that visits a new class keeps every entry sound. */
  lemma VisitKeepsSound(m: map<string, ClassDef>, r: map<string, ClassDef>, key: string)
    requires WellKeyed(m) && Sound(m, r)
    requires key in m && IsInaccessible(m[key].classFlags)
    ensures Sound(m, r[key := m[key]])
  {
  }

  /** Dropping a work item that leads nowhere new keeps the pending invariant. */
  lemma {:induction false} SkipKeepsPending(m: map<string, ClassDef>, seeds: set<string>, r: map<string, ClassDef>, work: set<string>, t: string)
    requires Pending(m, seeds, r, work) && t in work
    requires !LeadsInaccessible(m, t) || LookupKey(t) in r
    ensures Pending(m, seeds, r, work - {t})
  {
  }

  /** Visiting a new class and queueing its supertypes keeps the pending
      invariant. */
  lemma {:induction false} VisitKeepsPending(m: map<string, ClassDef>, seeds: set<string>, r: map<string, ClassDef>, work: set<string>, t: string)
    requires Pending(m, seeds, r, work) && t in work && LeadsInaccessible(m, t)
    ensures Pending(m, seeds, r[LookupKey(t) := m[LookupKey(t)]], Queue(m, work, t))
  {
  }

  /** The work list after visiting the class `t` leads to: `t` done, its
      supertypes queued. */
  function Queue(m: map<string, ClassDef>, work: set<string>, t: string): set<string>
    requires LookupKey(t) in m
  {
    (work - {t}) + set s | s in Supertypes(m[LookupKey(t)])
  }

  /** Visiting a new class keeps everything inside every covering closed set. */
  lemma {:induction false} VisitKeepsBelow(m: map<string, ClassDef>, seeds: set<string>, r: map<string, ClassDef>, work: set<string>, t: string)
    requires BelowEveryClosure(m, seeds, r, work) && t in work && LeadsInaccessible(m, t)
    ensures BelowEveryClosure(m, seeds, r[LookupKey(t) := m[LookupKey(t)]], Queue(m, work, t))
  {
    var key := LookupKey(t);
    var next := r[key := m[key]];
    var nextWork := Queue(m, work, t);
    forall S | Covers(m, seeds, S) && Closed(m, S)
      ensures next.Keys <= S && forall u :: u in nextWork && LeadsInaccessible(m, u) ==> LookupKey(u) in S
    {
      assert key in S;
      forall u | u in nextWork && LeadsInaccessible(m, u) ensures LookupKey(u) in S {
        if u !in work {
          assert u in Supertypes(m[key]);
        }
      }
    }
  }

  /** With nothing pending, the visited set covers the seeds, is closed, and
      lies inside every covering closed set. */
  lemma {:induction false} WalkDone(m: map<string, ClassDef>, seeds: set<string>, r: map<string, ClassDef>)
    requires Sound(m, r) && Pending(m, seeds, r, {}) && BelowEveryClosure(m, seeds, r, {})
    ensures Covers(m, seeds, r.Keys)
    ensures Closed(m, r.Keys)
    ensures forall S :: Covers(m, seeds, S) && Closed(m, S) ==> r.Keys <= S
  {
  }

  /** Visiting a key outside the visited set shrinks the unvisited part. */
  lemma VisitShrinks(m: map<string, ClassDef>, r: map<string, ClassDef>, key: string)
    requires r.Keys <= m.Keys && key in m && key !in r
    ensures |m.Keys - r[key := m[key]].Keys| < |m.Keys - r.Keys|
  {
    assert m.Keys - r[key := m[key]].Keys == (m.Keys - r.Keys) - {key};
  }

  /** Phase A over the given seeds, as a worklist with a visited map. */
  method Walk(m: map<string, ClassDef>, seeds: set<string>) returns (referenced: map<string, ClassDef>)
    requires WellKeyed(m)
    ensures Sound(m, referenced)
    ensures Covers(m, seeds, referenced.Keys)
    ensures Closed(m, referenced.Keys)
    ensures forall S :: Covers(m, seeds, S) && Closed(m, S) ==> referenced.Keys <= S
  {
    referenced := map[];
    var work := seeds;
    while work != {}
      invariant Sound(m, referenced)
      invariant Pending(m, seeds, referenced, work)
      invariant BelowEveryClosure(m, seeds, referenced, work)
      decreases |m.Keys - referenced.Keys|, |work|
    {
      referenced, work := WalkStep(m, seeds, referenced, work);
    }
    WalkDone(m, seeds, referenced);
  }

  /** One turn of the worklist loop: take a pending name, and visit the
      class it leads to unless that class is accessible, missing or visited
      already. Either the visited set grows or the work list shrinks. */
  method WalkStep(m: map<string, ClassDef>, seeds: set<string>, r: map<string, ClassDef>, work: set<string>)
    returns (next: map<string, ClassDef>, nextWork: set<string>)
    requires WellKeyed(m) && work != {}
    requires Sound(m, r) && Pending(m, seeds, r, work) && BelowEveryClosure(m, seeds, r, work)
    ensures Sound(m, next) && Pending(m, seeds, next, nextWork) && BelowEveryClosure(m, seeds, next, nextWork)
    ensures r.Keys <= next.Keys
    ensures |m.Keys - next.Keys| < |m.Keys - r.Keys| || (next == r && |nextWork| < |work|)
  {
    var t :| t in work;
    if LeadsInaccessible(m, t) && LookupKey(t) !in r {
      var key := LookupKey(t);
      VisitKeepsSound(m, r, key);
      VisitKeepsPending(m, seeds, r, work, t);
      VisitKeepsBelow(m, seeds, r, work, t);
      VisitShrinks(m, r, key);
      nextWork := Queue(m, work, t);
      next := r[key := m[key]];
    } else {
      SkipKeepsPending(m, seeds, r, work, t);
      nextWork := work - {t};
      next := r;
    }
  }

  // ---------------------------------------------------------------------
  // Phase B: the non-recursive sweep
  // ---------------------------------------------------------------------

  /** The keys `addToReferenced` would add: each inaccessible class named as
      the superclass or an interface of an already referenced class. */
  function SweepKeys(m: map<string, ClassDef>, r: map<string, ClassDef>): (keys: set<string>)
    ensures forall k :: k in keys ==> k in m
  {
    set j, s | j in r && s in Supertypes(r[j]) && LeadsInaccessible(m, s) :: LookupKey(s)
  }

  /** Phase B: the referenced map with the sweep's classes put in. */
  function Sweep(m: map<string, ClassDef>, r: map<string, ClassDef>): map<string, ClassDef> {
    var keys := SweepKeys(m, r);
    r + map k | k in keys :: m[k]
  }

  /** On a sound, closed result the sweep adds nothing: phase B is a no-op
      after phase A. */
  lemma SweepAddsNothing(m: map<string, ClassDef>, r: map<string, ClassDef>)
    requires Sound(m, r) && Closed(m, r.Keys)
    ensures Sweep(m, r) == r
  {
    var keys := SweepKeys(m, r);
    forall k | k in keys ensures k in r && r[k] == m[k] {
      var j, s :| j in r && s in Supertypes(r[j]) && LeadsInaccessible(m, s) && k == LookupKey(s);
      assert r[j] == m[j];
    }
    var added := map k | k in keys :: m[k];
    assert r + added == r;
  }

  /** `searchReferencedInaccessibleClasses`: phase A over the seeds of the
      accessible surface, then phase B. The result holds exactly the least
      closed set of inaccessible classes covering the seeds, each under its
      own type. */
  method SearchReferenced(m: map<string, ClassDef>) returns (referenced: map<string, ClassDef>)
    requires WellKeyed(m)
    ensures Sound(m, referenced)
    ensures Covers(m, Seeds(m), referenced.Keys)
    ensures Closed(m, referenced.Keys)
    ensures forall S :: Covers(m, Seeds(m), S) && Closed(m, S) ==> referenced.Keys <= S
  {
    referenced := Walk(m, Seeds(m));
    SweepAddsNothing(m, referenced);
    referenced := Sweep(m, referenced);
  }

  /** An accessible class is never referenced, and a class whose only
      mentions pass through accessible classes is never reached: the walk
      stops at accessible classes. */
  lemma AccessibleNeverReferenced(m: map<string, ClassDef>, r: map<string, ClassDef>, k: string)
    requires Sound(m, r)
    requires k in m && !IsInaccessible(m[k].classFlags)
    ensures k !in r
  {
  }

  /** No synthetic class reaches the referenced set, because none enters the
      merged map. */
  lemma ReferencedNeverSynthetic(m: map<string, ClassDef>, r: map<string, ClassDef>, k: string)
    requires WellKeyed(m) && Sound(m, r) && k in r
    ensures !Has(r[k].classFlags, ACC_SYNTHETIC)
    ensures !Has(r[k].classFlags, ACC_PUBLIC) && !Has(r[k].classFlags, ACC_PROTECTED)
  {
  }
}
