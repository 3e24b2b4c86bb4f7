/** Parameter records (MethodParameterRecord.java) and `getParameters`: the
    local-variable slot of each parameter, and the recovery of missing names
    from the debug info's StartLocal items.

    In a dex method the parameters occupy the last registers of the frame, in
    order, a `long` or `double` taking two. Parameter `i` therefore starts at
    register `registerCount - Slots(types[i..])`, and a StartLocal item naming
    register `r` describes the parameter whose distance from the top,
    `registerCount - r`, is `Slots(types[i..])`. */
module Parameters {
  import opened Wrappers
  import opened Dex
  import opened AccessFlags

  /** The record: `id`, `paramType` and `annotations` are final in the
      source; `name` and `signature` are the mutable, nullable fields that
      recovery may fill; `registerId` is package-private scratch. */
  datatype ParameterRecord = ParameterRecord(
    id: int,
    paramType: string,
    annotations: seq<Annotation>,
    name: Option<string>,
    signature: Option<string>,
    registerId: int)

  /** The record constructor: stores the five arguments, and `registerId`
      starts at 0. */
  function NewRecord(id: int, name: Option<string>, paramType: string, signature: Option<string>, annotations: seq<Annotation>): (r: ParameterRecord)
    ensures r.id == id && r.name == name && r.paramType == paramType
    ensures r.signature == signature && r.annotations == annotations
    ensures r.registerId == 0
  {
    ParameterRecord(id, paramType, annotations, name, signature, 0)
  }

  // ---------------------------------------------------------------------
  // Slot arithmetic
  // ---------------------------------------------------------------------

  /** The slots a value of the given descriptor takes: two for `long` and
      `double`, one otherwise. */
  function Width(t: string): nat {
    if |t| > 0 && (t[0] == 'J' || t[0] == 'D') then 2 else 1
  }

  /** The slots a list of descriptors takes. */
  function Slots(ts: seq<string>): nat {
    if |ts| == 0 then 0 else Width(ts[0]) + Slots(ts[1..])
  }

  lemma {:induction false} SlotsAppend(ts: seq<string>, t: string)
    ensures Slots(ts + [t]) == Slots(ts) + Width(t)
    decreases |ts|
  {
    if |ts| == 0 {
      assert (ts + [t])[1..] == [];
    } else {
      assert (ts + [t])[1..] == ts[1..] + [t];
      SlotsAppend(ts[1..], t);
    }
  }

  /** A list's slots split at any point. */
  lemma {:induction false} SlotsSplit(ts: seq<string>, i: nat)
    requires i <= |ts|
    ensures Slots(ts[..i]) + Slots(ts[i..]) == Slots(ts)
    decreases i
  {
    if i > 0 {
      assert ts[..i][1..] == ts[1..][..i - 1];
      assert ts[i..] == ts[1..][i - 1..];
      SlotsSplit(ts[1..], i - 1);
    } else {
      assert ts[i..] == ts;
    }
  }

  /** The slots of a non-empty type list: those before the last type, plus
      the last type's width. */
  lemma SlotsLast(ts: seq<string>)
    requires |ts| > 0
    ensures Slots(ts[..|ts| - 1]) + Width(ts[|ts| - 1]) == Slots(ts)
  {
    SlotsSplit(ts, |ts| - 1);
    assert ts[|ts| - 1..] == [ts[|ts| - 1]];
    assert [ts[|ts| - 1]][1..] == [];
  }

  /** The parameter type descriptors, in order. */
  function Types(ps: seq<Parameter>): (r: seq<string>)
    ensures |r| == |ps|
    ensures forall i :: 0 <= i < |ps| ==> r[i] == ps[i].paramType
  {
    seq(|ps|, i requires 0 <= i < |ps| => ps[i].paramType)
  }

  /** The first parameter slot: 0 for a static method, 1 after `this`. */
  function FirstSlot(m: Method): nat {
    if Has(m.methodFlags, ACC_STATIC) then 0 else 1
  }

  // ---------------------------------------------------------------------
  // The first loop: slot ids
  // ---------------------------------------------------------------------

  /** The first loop of `getParameters`: one record per parameter, its id the
      slot after all earlier parameters. */
  function Layout(ps: seq<Parameter>, first: int): (rs: seq<ParameterRecord>)
    ensures |rs| == |ps|
    ensures forall i :: 0 <= i < |ps| ==>
      rs[i] == NewRecord(first + Slots(Types(ps)[..i]), ps[i].paramName, ps[i].paramType, ps[i].paramSignature, ps[i].paramAnnotations)
    decreases |ps|
  {
    if |ps| == 0 then []
    else
      var p := ps[0];
      var rest := Layout(ps[1..], first + Width(p.paramType));
      SlotsPrefixTail(ps);
      [NewRecord(first, p.paramName, p.paramType, p.paramSignature, p.paramAnnotations)] + rest
  }

  /** A prefix of the parameter types splits into the first parameter and a
      prefix of the rest. */
  lemma SlotsPrefixTail(ps: seq<Parameter>)
    requires |ps| > 0
    ensures forall i :: 1 <= i <= |ps| ==>
      Slots(Types(ps)[..i]) == Width(ps[0].paramType) + Slots(Types(ps[1..])[..i - 1])
  {
    forall i | 1 <= i <= |ps|
      ensures Slots(Types(ps)[..i]) == Width(ps[0].paramType) + Slots(Types(ps[1..])[..i - 1])
    {
      assert Types(ps)[..i][1..] == Types(ps[1..])[..i - 1];
    }
  }

  /** Consecutive ids step by the earlier parameter's width: 1, or 2 for a
      `long` or `double`. */
  lemma LayoutSteps(ps: seq<Parameter>, first: int, i: nat)
    requires i + 1 < |ps|
    ensures Layout(ps, first)[i + 1].id == Layout(ps, first)[i].id + Width(ps[i].paramType)
  {
    assert Types(ps)[..i + 1] == Types(ps)[..i] + [ps[i].paramType];
    SlotsAppend(Types(ps)[..i], ps[i].paramType);
  }

  // ---------------------------------------------------------------------
  // The back-count
  // ---------------------------------------------------------------------

  /** The back-count as written: walking from the last parameter, each gets
      the running id, which starts at 1 and then grows by the parameter's
      width. */
  function BackCountAsWritten(types: seq<string>, next: int): (ids: seq<int>)
    ensures |ids| == |types|
    ensures forall k :: 0 <= k < |types| ==> ids[k] == next + Slots(types[k + 1..])
    decreases |types|
  {
    if |types| == 0 then []
    else
      var last := types[|types| - 1];
      var init := types[..|types| - 1];
      var ids := BackCountAsWritten(init, next + Width(last)) + [next];
      forall k | 0 <= k < |types| ensures ids[k] == next + Slots(types[k + 1..]) {
        if k < |init| {
          assert types[k + 1..] == init[k + 1..] + [last];
          SlotsAppend(init[k + 1..], last);
        } else {
          assert types[k + 1..] == [];
        }
      }
      ids
  }

  /** The corrected back-count: each parameter gets its distance from the top
      of the frame, its own width included. */
  function BackCount(types: seq<string>, below: int): (ids: seq<int>)
    ensures |ids| == |types|
    ensures forall k :: 0 <= k < |types| ==> ids[k] == below + Slots(types[k..])
    decreases |types|
  {
    if |types| == 0 then []
    else
      var last := types[|types| - 1];
      var init := types[..|types| - 1];
      var id := below + Width(last);
      var ids := BackCount(init, id) + [id];
      forall k | 0 <= k < |types| ensures ids[k] == below + Slots(types[k..]) {
        if k < |init| {
          assert types[k..] == init[k..] + [last];
          SlotsAppend(init[k..], last);
        } else {
          assert types[k..] == [last];
          assert [last][1..] == [];
        }
      }
      ids
  }

  /** Slot id and corrected register distance add up to the frame's
      parameter words: parameter `i` sits at register
      `registerCount - insSize + id`. */
  lemma IdAndRegisterAgree(ps: seq<Parameter>, first: int, i: nat)
    requires i < |ps|
    ensures Layout(ps, first)[i].id + BackCount(Types(ps), 0)[i] == first + Slots(Types(ps))
  {
    SlotsSplit(Types(ps), i);
  }

  /** The two back-counts agree on a one-slot parameter and are one apart on
      a `long` or `double`. */
  lemma BackCountsDiffer(types: seq<string>, k: nat)
    requires k < |types|
    ensures BackCount(types, 0)[k] - BackCountAsWritten(types, 1)[k] == Width(types[k]) - 1
  {
    assert types[k..][1..] == types[k + 1..];
  }

  function WithRegisterIds(rs: seq<ParameterRecord>, ids: seq<int>): (r: seq<ParameterRecord>)
    requires |ids| == |rs|
    ensures |r| == |rs|
    ensures forall i :: 0 <= i < |rs| ==> r[i] == rs[i].(registerId := ids[i])
  {
    seq(|rs|, i requires 0 <= i < |rs| => rs[i].(registerId := ids[i]))
  }

  // ---------------------------------------------------------------------
  // Name recovery
  // ---------------------------------------------------------------------

  /** A nameless record matches a StartLocal when the register distance and
      the type agree. */
  predicate Matches(r: ParameterRecord, distance: int, localType: Option<string>) {
    r.registerId == distance && localType == Some(r.paramType)
  }

  /** One pass of the inner loop: every nameless matching record takes the
      local's name and signature. */
  function ApplyLocal(rs: seq<ParameterRecord>, distance: int, localName: Option<string>, localType: Option<string>, localSignature: Option<string>): (r: seq<ParameterRecord>)
    ensures |r| == |rs|
    ensures forall i :: 0 <= i < |rs| ==>
      r[i] == if rs[i].name.None? && Matches(rs[i], distance, localType)
              then rs[i].(name := localName, signature := localSignature)
              else rs[i]
  {
    seq(|rs|, i requires 0 <= i < |rs| =>
      if rs[i].name.None? && Matches(rs[i], distance, localType)
      then rs[i].(name := localName, signature := localSignature)
      else rs[i])
  }

  /** The flag the inner loop leaves: some nameless record did not match. */
  predicate StillMissing(rs: seq<ParameterRecord>, distance: int, localType: Option<string>) {
    exists i :: 0 <= i < |rs| && rs[i].name.None? && !Matches(rs[i], distance, localType)
  }

  /** The loop over the debug items: each StartLocal is applied on its own,
      and the loop stops after the first one that leaves no nameless record
      unmatched. */
  function Recover(rs: seq<ParameterRecord>, items: seq<DebugItem>, registerCount: int): (r: seq<ParameterRecord>)
    ensures |r| == |rs|
    ensures (forall i :: 0 <= i < |rs| ==> rs[i].name.Some?) ==> r == rs
    decreases |items|
  {
    if |items| == 0 then rs
    else match items[0]
      case OtherDebugItem => Recover(rs, items[1..], registerCount)
      case StartLocal(register, localName, localType, localSignature) =>
        var distance := registerCount - register;
        var next := ApplyLocal(rs, distance, localName, localType, localSignature);
        assert (forall i :: 0 <= i < |rs| ==> rs[i].name.Some?) ==> next == rs;
        if !StillMissing(rs, distance, localType) then next
        else Recover(next, items[1..], registerCount)
  }

  /** The record fields other than the name and signature, which recovery
      never touches. */
  predicate SameIdentity(a: ParameterRecord, b: ParameterRecord) {
    a.id == b.id && a.paramType == b.paramType && a.annotations == b.annotations && a.registerId == b.registerId
  }

  /** Recovery changes only names and signatures, and only of nameless
      records: a named parameter is never changed, so a name once assigned is
      never rolled back. */
  lemma {:induction false} RecoverOnlyFillsNames(rs: seq<ParameterRecord>, items: seq<DebugItem>, registerCount: int)
    ensures |Recover(rs, items, registerCount)| == |rs|
    ensures forall i :: 0 <= i < |rs| ==> SameIdentity(Recover(rs, items, registerCount)[i], rs[i])
    ensures forall i :: 0 <= i < |rs| && rs[i].name.Some? ==> Recover(rs, items, registerCount)[i] == rs[i]
    decreases |items|
  {
    if |items| > 0 {
      match items[0]
      case OtherDebugItem =>
        RecoverOnlyFillsNames(rs, items[1..], registerCount);
      case StartLocal(register, localName, localType, localSignature) =>
        var distance := registerCount - register;
        var next := ApplyLocal(rs, distance, localName, localType, localSignature);
        RecoverOnlyFillsNames(next, items[1..], registerCount);
    }
  }

  /** Recovery is complete: a nameless record that some StartLocal item
      matches on register distance and type ends up named, provided every
      StartLocal carries a name. Either the loop reaches that item, which
      names the record if nothing earlier did, or it stops earlier, and it
      stops only after an item that left no nameless record unmatched. */
  lemma {:induction false} MatchingLocalNamesParameter(rs: seq<ParameterRecord>, items: seq<DebugItem>, registerCount: int, i: nat)
    requires i < |rs|
    requires forall k :: 0 <= k < |items| && items[k].StartLocal? ==> items[k].localName.Some?
    requires || rs[i].name.Some?
             || exists k :: 0 <= k < |items| && items[k].StartLocal? && Matches(rs[i], registerCount - items[k].register, items[k].localType)
    ensures i < |Recover(rs, items, registerCount)| && Recover(rs, items, registerCount)[i].name.Some?
    decreases |items|
  {
    if |items| == 0 {
      assert rs[i].name.Some?;
    } else {
      assert forall k :: 1 <= k < |items| ==> items[k] == items[1..][k - 1];
      match items[0]
      case OtherDebugItem =>
        if rs[i].name.None? {
          var k :| 0 <= k < |items| && items[k].StartLocal? && Matches(rs[i], registerCount - items[k].register, items[k].localType);
          assert items[1..][k - 1] == items[k];
        }
        MatchingLocalNamesParameter(rs, items[1..], registerCount, i);
      case StartLocal(register, localName, localType, localSignature) =>
        var distance := registerCount - register;
        var next := ApplyLocal(rs, distance, localName, localType, localSignature);
        if rs[i].name.None? && !Matches(rs[i], distance, localType) {
          assert next[i] == rs[i];
          assert StillMissing(rs, distance, localType);
          var k :| 0 <= k < |items| && items[k].StartLocal? && Matches(rs[i], registerCount - items[k].register, items[k].localType);
          assert k != 0;
          assert items[1..][k - 1] == items[k];
          MatchingLocalNamesParameter(next, items[1..], registerCount, i);
        } else {
          assert next[i].name.Some?;
          if StillMissing(rs, distance, localType) {
            MatchingLocalNamesParameter(next, items[1..], registerCount, i);
          }
        }
    }
  }

  /** A StartLocal item describing the record: its register distance and type
      agree, and it carries the given name and signature. */
  predicate DescribedBy(r: ParameterRecord, items: seq<DebugItem>, registerCount: int, name: Option<string>, signature: Option<string>) {
    exists k :: 0 <= k < |items| && items[k].StartLocal?
      && registerCount - items[k].register == r.registerId
      && items[k].localType == Some(r.paramType)
      && items[k].localName == name && items[k].localSignature == signature
  }

  /** Every name and signature recovery sets comes from a StartLocal item
      whose register distance and type match the parameter. */
  lemma {:induction false} RecoveredNamesComeFromMatchingLocals(rs: seq<ParameterRecord>, items: seq<DebugItem>, registerCount: int, i: nat)
    requires i < |rs|
    ensures i < |Recover(rs, items, registerCount)|
    ensures Recover(rs, items, registerCount)[i] != rs[i] ==>
      DescribedBy(rs[i], items, registerCount, Recover(rs, items, registerCount)[i].name, Recover(rs, items, registerCount)[i].signature)
    decreases |items|, 1
  {
    RecoverOnlyFillsNames(rs, items, registerCount);
    if |items| > 0 {
      var rest := items[1..];
      match items[0]
      case OtherDebugItem =>
        RecoveredNamesComeFromMatchingLocals(rs, rest, registerCount, i);
        var r := Recover(rs, items, registerCount)[i];
        if r != rs[i] {
          var k :| 0 <= k < |rest| && rest[k].StartLocal?
            && registerCount - rest[k].register == rs[i].registerId
            && rest[k].localType == Some(rs[i].paramType)
            && rest[k].localName == r.name && rest[k].localSignature == r.signature;
          assert items[k + 1] == rest[k];
        }
      case StartLocal(_, _, _, _) =>
        StartLocalProvenance(rs, items, registerCount, i);
    }
  }

  /** The StartLocal case of `RecoveredNamesComeFromMatchingLocals`. */
  lemma {:induction false} StartLocalProvenance(rs: seq<ParameterRecord>, items: seq<DebugItem>, registerCount: int, i: nat)
    requires i < |rs| && |items| > 0 && items[0].StartLocal?
    ensures i < |Recover(rs, items, registerCount)|
    ensures Recover(rs, items, registerCount)[i] != rs[i] ==>
      DescribedBy(rs[i], items, registerCount, Recover(rs, items, registerCount)[i].name, Recover(rs, items, registerCount)[i].signature)
    decreases |items|, 0
  {
    RecoverOnlyFillsNames(rs, items, registerCount);
    var rest := items[1..];
    var StartLocal(register, localName, localType, localSignature) := items[0];
    var distance := registerCount - register;
    var next := ApplyLocal(rs, distance, localName, localType, localSignature);
    var r := Recover(rs, items, registerCount)[i];
    if r != rs[i] {
      if r == next[i] {
        assert items[0].StartLocal? && registerCount - items[0].register == rs[i].registerId
          && items[0].localType == Some(rs[i].paramType)
          && items[0].localName == r.name && items[0].localSignature == r.signature;
      } else {
        RecoveredNamesComeFromMatchingLocals(next, rest, registerCount, i);
        assert SameIdentity(next[i], rs[i]);
        var k :| 0 <= k < |rest| && rest[k].StartLocal?
          && registerCount - rest[k].register == next[i].registerId
          && rest[k].localType == Some(next[i].paramType)
          && rest[k].localName == r.name && rest[k].localSignature == r.signature;
        assert items[k + 1] == rest[k];
      }
    }
  }


  // ---------------------------------------------------------------------
  // getParameters
  // ---------------------------------------------------------------------

  /** Recovery runs only for a non-empty list with a nameless parameter in a
      method that is not abstract. */
  predicate RecoveryRuns(m: Method) {
    && |m.parameters| > 0
    && (exists i :: 0 <= i < |m.parameters| && m.parameters[i].paramName.None?)
    && !Has(m.methodFlags, ACC_ABSTRACT)
  }

  /** The records `getParameters` returns, given the back-counted ids. */
  function RecoverWith(m: Method, ids: seq<int>): (rs: seq<ParameterRecord>)
    requires m.implementation.Some?
    requires |ids| == |m.parameters|
    ensures |rs| == |m.parameters|
    ensures KeepsLayout(m, rs)
    ensures !RecoveryRuns(m) ==> rs == Layout(m.parameters, FirstSlot(m))
  {
    var laid := Layout(m.parameters, FirstSlot(m));
    if !RecoveryRuns(m) then laid
    else
      var impl := m.implementation.value;
      var withIds := WithRegisterIds(laid, ids);
      RecoverOnlyFillsNames(withIds, impl.debugItems, impl.registerCount);
      Recover(withIds, impl.debugItems, impl.registerCount)
  }

  /** Record `i` holds parameter `i`'s laid-out slot, its type and its
      annotations, and the dex name and signature of a named parameter. */
  predicate KeepsLayout(m: Method, rs: seq<ParameterRecord>)
    requires |rs| == |m.parameters|
  {
    forall i :: 0 <= i < |rs| ==>
      && rs[i].id == FirstSlot(m) + Slots(Types(m.parameters)[..i])
      && rs[i].paramType == m.parameters[i].paramType
      && rs[i].annotations == m.parameters[i].paramAnnotations
      && (m.parameters[i].paramName.Some? ==>
            rs[i].name == m.parameters[i].paramName && rs[i].signature == m.parameters[i].paramSignature)
  }

  /** `getParameters` as written, with the back-count that starts at 1. The
      caller only asks for it when the method has a body. */
  function GetParametersAsWritten(m: Method): (rs: seq<ParameterRecord>)
    requires m.implementation.Some?
    ensures |rs| == |m.parameters|
    ensures KeepsLayout(m, rs)
    ensures !RecoveryRuns(m) ==> rs == Layout(m.parameters, FirstSlot(m))
  {
    RecoverWith(m, BackCountAsWritten(Types(m.parameters), 1))
  }

  /** `getParameters` with the corrected back-count: each parameter's
      register distance is the slots from it to the top of the frame. */
  function GetParameters(m: Method): (rs: seq<ParameterRecord>)
    requires m.implementation.Some?
    ensures |rs| == |m.parameters|
    ensures KeepsLayout(m, rs)
    ensures !RecoveryRuns(m) ==> rs == Layout(m.parameters, FirstSlot(m))
  {
    RecoverWith(m, BackCount(Types(m.parameters), 0))
  }

  /** The records hold each parameter's slot id, type, annotations, and the
      dex name and signature unless recovery filled a missing one; when
      recovery does not run they are exactly the laid-out records. */
  lemma GetParametersShape(m: Method, i: nat)
    requires m.implementation.Some? && i < |m.parameters|
    ensures |GetParameters(m)| == |m.parameters|
    ensures GetParameters(m)[i].id == FirstSlot(m) + Slots(Types(m.parameters)[..i])
    ensures GetParameters(m)[i].paramType == m.parameters[i].paramType
    ensures GetParameters(m)[i].annotations == m.parameters[i].paramAnnotations
    ensures m.parameters[i].paramName.Some? ==>
      GetParameters(m)[i].name == m.parameters[i].paramName
      && GetParameters(m)[i].signature == m.parameters[i].paramSignature
    ensures !RecoveryRuns(m) ==> GetParameters(m) == Layout(m.parameters, FirstSlot(m))
  {
    var laid := Layout(m.parameters, FirstSlot(m));
    if RecoveryRuns(m) {
      var impl := m.implementation.value;
      var ids := WithRegisterIds(laid, BackCount(Types(m.parameters), 0));
      RecoverOnlyFillsNames(ids, impl.debugItems, impl.registerCount);
    }
  }

  /** Whatever the back-counted ids, a recovered name comes from a StartLocal
      item whose register distance is the parameter's id and whose type is
      the parameter's. */
  lemma RecoverWithProvenance(m: Method, ids: seq<int>, i: nat)
    requires m.implementation.Some? && |ids| == |m.parameters| && i < |m.parameters|
    ensures RecoverWith(m, ids)[i].name != m.parameters[i].paramName ==> RecoveryRuns(m)
    ensures RecoverWith(m, ids)[i].name != m.parameters[i].paramName ==>
      exists k :: (0 <= k < |m.implementation.value.debugItems|
      && m.implementation.value.debugItems[k].StartLocal?
      && m.implementation.value.registerCount - m.implementation.value.debugItems[k].register == ids[i]
      && m.implementation.value.debugItems[k].localType == Some(m.parameters[i].paramType)
      && m.implementation.value.debugItems[k].localName == RecoverWith(m, ids)[i].name)
  {
    if RecoverWith(m, ids)[i].name == m.parameters[i].paramName {
      return;
    }
    var laid := Layout(m.parameters, FirstSlot(m));
    assert laid[i].name == m.parameters[i].paramName;
    var impl := m.implementation.value;
    var withIds := WithRegisterIds(laid, ids);
    var out := Recover(withIds, impl.debugItems, impl.registerCount);
    assert RecoverWith(m, ids) == out;
    assert withIds[i].name == m.parameters[i].paramName;
    assert withIds[i].registerId == ids[i] && withIds[i].paramType == m.parameters[i].paramType;
    RecoveredNamesComeFromMatchingLocals(withIds, impl.debugItems, impl.registerCount, i);
  }

  /** With the corrected back-count, a parameter takes a recovered name only
      from a StartLocal item that starts exactly at the parameter's dex
      register, `registerCount - Slots(types[i..])`, with the parameter's
      type. */
  lemma RecoveredNameAtOwnRegister(m: Method, i: nat)
    requires m.implementation.Some? && i < |m.parameters|
    ensures GetParameters(m)[i].name != m.parameters[i].paramName ==>
      exists k :: (0 <= k < |m.implementation.value.debugItems|
      && m.implementation.value.debugItems[k].StartLocal?
      && m.implementation.value.debugItems[k].register
           == m.implementation.value.registerCount - Slots(Types(m.parameters)[i..])
      && m.implementation.value.debugItems[k].localType == Some(m.parameters[i].paramType)
      && m.implementation.value.debugItems[k].localName == GetParameters(m)[i].name)
  {
    var ids := BackCount(Types(m.parameters), 0);
    RecoverWithProvenance(m, ids, i);
    assert ids[i] == Slots(Types(m.parameters)[i..]);
  }

  // ---------------------------------------------------------------------
  // The wide-parameter back-count
  // ---------------------------------------------------------------------

  /** A static `(J)V` method with two registers whose debug info names the
      `long` parameter at register 0, where the calling convention puts it. */
  const WIDE_EXAMPLE: Method := Method(
    "LExample;", "set",
    [Parameter("J", None, None, [])],
    "V", {ACC_PUBLIC, ACC_STATIC}, [],
    Some(Implementation(2, [], [StartLocal(0, Some("value"), Some("J"), None)])),
    {})

  /** As written, the back-count gives this `long` parameter distance 1 while
      its register is 2 from the top, so its name is not recovered; the
      corrected count recovers it. */
  lemma WideParameterNameLost()
    ensures GetParametersAsWritten(WIDE_EXAMPLE)[0].name == None
    ensures GetParameters(WIDE_EXAMPLE)[0].name == Some("value")
  {
    var m := WIDE_EXAMPLE;
    assert m.parameters[0].paramName.None?;
    assert RecoveryRuns(m);
    var types := Types(m.parameters);
    assert types == ["J"];
    assert types[1..] == [];
    assert types[0..] == ["J"];
    assert BackCountAsWritten(types, 1)[0] == 1;
    assert BackCount(types, 0)[0] == 2;
  }

  /** As written, a `long` or `double` parameter can take a recovered name
      only from a StartLocal one register above its own start,
      `registerCount - Slots(types[i..]) + 1`: never from the local the
      calling convention puts at its own register. */
  lemma WideNameOnlyFromRegisterAbove(m: Method, i: nat)
    requires m.implementation.Some? && i < |m.parameters| && Width(m.parameters[i].paramType) == 2
    ensures GetParametersAsWritten(m)[i].name != m.parameters[i].paramName ==>
      exists k :: (0 <= k < |m.implementation.value.debugItems|
      && m.implementation.value.debugItems[k].StartLocal?
      && m.implementation.value.debugItems[k].register
           == m.implementation.value.registerCount - Slots(Types(m.parameters)[i..]) + 1
      && m.implementation.value.debugItems[k].localType == Some(m.parameters[i].paramType)
      && m.implementation.value.debugItems[k].localName == GetParametersAsWritten(m)[i].name)
  {
    var ids := BackCountAsWritten(Types(m.parameters), 1);
    RecoverWithProvenance(m, ids, i);
    BackCountsDiffer(Types(m.parameters), i);
    assert BackCount(Types(m.parameters), 0)[i] == Slots(Types(m.parameters)[i..]);
  }
}
