/** The archive merger of `extract`: every class of every input archive, in
    the caller's priority order, is put into one map keyed by type name.
    Synthetic classes are skipped, and a type already present keeps its first
    class: the source puts the newcomer and then restores the previous value. */
module Merge {
  import opened Wrappers
  import opened Dex
  import opened AccessFlags

  /** Classes that enter the map at all. */
  predicate Kept(c: ClassDef) {
    !Has(c.classFlags, ACC_SYNTHETIC)
  }

  /** Each key maps to a non-synthetic class of that very type. */
  predicate WellKeyed(m: map<string, ClassDef>) {
    forall k :: k in m ==> m[k].classType == k && Kept(m[k])
  }

  /** One step of the loop: `put`, then put the previous value back if there
      was one. */
  function PutKeepingFirst(m: map<string, ClassDef>, c: ClassDef): (r: map<string, ClassDef>)
    ensures c.classType in m ==> r == m
    ensures c.classType !in m ==> r == m[c.classType := c]
  {
    var previous := if c.classType in m then Some(m[c.classType]) else None;
    var put := m[c.classType := c];
    if previous.None? then put else put[c.classType := previous.value]
  }

  /** The reference definition: the first kept class of the given type. */
  function FirstKept(cs: seq<ClassDef>, t: string): Option<ClassDef> {
    if |cs| == 0 then None
    else if Kept(cs[0]) && cs[0].classType == t then Some(cs[0])
    else FirstKept(cs[1..], t)
  }

  /** Appending a class changes the first occurrence only for a type not seen
      before. */
  lemma {:induction false} FirstKeptAppend(cs: seq<ClassDef>, c: ClassDef, t: string)
    ensures FirstKept(cs + [c], t) ==
      if FirstKept(cs, t).Some? then FirstKept(cs, t)
      else if Kept(c) && c.classType == t then Some(c)
      else None
    decreases |cs|
  {
    if |cs| == 0 {
      assert (cs + [c])[1..] == [];
    } else {
      assert (cs + [c])[0] == cs[0];
      assert (cs + [c])[1..] == cs[1..] + [c];
      FirstKeptAppend(cs[1..], c, t);
    }
  }

  /** `FirstKept` names a kept class of the asked type, at the earliest
      position where one occurs. */
  lemma {:induction false} FirstKeptIsEarliest(cs: seq<ClassDef>, t: string)
    ensures FirstKept(cs, t).Some? <==> exists i :: 0 <= i < |cs| && Kept(cs[i]) && cs[i].classType == t
    ensures FirstKept(cs, t).Some? ==>
      exists i :: (0 <= i < |cs| && cs[i] == FirstKept(cs, t).value
        && Kept(cs[i]) && cs[i].classType == t
        && forall j :: 0 <= j < i ==> !(Kept(cs[j]) && cs[j].classType == t))
    decreases |cs|
  {
    if |cs| > 0 {
      FirstKeptIsEarliest(cs[1..], t);
      if Kept(cs[0]) && cs[0].classType == t {
        assert cs[0] == FirstKept(cs, t).value;
      } else {
        if exists i :: 0 <= i < |cs| && Kept(cs[i]) && cs[i].classType == t {
          var i :| 0 <= i < |cs| && Kept(cs[i]) && cs[i].classType == t;
          assert cs[1..][i - 1] == cs[i];
        }
        if FirstKept(cs, t).Some? {
          var i :| 0 <= i < |cs[1..]| && cs[1..][i] == FirstKept(cs, t).value
            && Kept(cs[1..][i]) && cs[1..][i].classType == t
            && forall j :: 0 <= j < i ==> !(Kept(cs[1..][j]) && cs[1..][j].classType == t);
          assert cs[i + 1] == cs[1..][i];
          forall j | 0 <= j < i + 1 ensures !(Kept(cs[j]) && cs[j].classType == t) {
            if j > 0 {
              assert cs[j] == cs[1..][j - 1];
            }
          }
        }
      }
    }
  }

  /** The merge loop over the flattened class stream of all archives. The map
      holds, for every type that has a kept class, the first one, and nothing
      else. */
  method MergeClasses(cs: seq<ClassDef>) returns (m: map<string, ClassDef>)
    ensures WellKeyed(m)
    ensures forall t :: t in m <==> FirstKept(cs, t).Some?
    ensures forall t :: t in m ==> m[t] == FirstKept(cs, t).value
  {
    m := map[];
    var i := 0;
    while i < |cs|
      invariant 0 <= i <= |cs|
      invariant WellKeyed(m)
      invariant forall t :: t in m <==> FirstKept(cs[..i], t).Some?
      invariant forall t :: t in m ==> m[t] == FirstKept(cs[..i], t).value
    {
      var c := cs[i];
      assert cs[..i + 1] == cs[..i] + [c];
      forall t ensures FirstKept(cs[..i + 1], t) ==
        if FirstKept(cs[..i], t).Some? then FirstKept(cs[..i], t)
        else if Kept(c) && c.classType == t then Some(c)
        else None
      {
        FirstKeptAppend(cs[..i], c, t);
      }
      if Kept(c) {
        m := PutKeepingFirst(m, c);
      }
      i := i + 1;
    }
    assert cs[..i] == cs;
  }

  /** A later duplicate never replaces the class already merged for its type. */
  lemma LaterDuplicateIgnored(cs: seq<ClassDef>, c: ClassDef)
    requires FirstKept(cs, c.classType).Some?
    ensures FirstKept(cs + [c], c.classType) == FirstKept(cs, c.classType)
  {
    FirstKeptAppend(cs, c, c.classType);
  }

  /** No synthetic class ever enters the map. */
  lemma {:induction false} FirstKeptIsKept(cs: seq<ClassDef>, t: string)
    ensures FirstKept(cs, t).Some? ==> Kept(FirstKept(cs, t).value) && FirstKept(cs, t).value.classType == t
    decreases |cs|
  {
    if |cs| > 0 {
      FirstKeptIsKept(cs[1..], t);
    }
  }
}
