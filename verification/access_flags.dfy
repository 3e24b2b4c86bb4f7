/** Access-flag constants (the class-file values of section 4.1, 4.5 and 4.6 of
    the Java Virtual Machine Specification, SE 17, plus ASM's pseudo flags) and
    the accessibility predicate that gates every filtering decision.

    A flag word is the set of the positions of its one bits, so each constant
    here is a bit position; `MaskOf` gives the `int` mask it stands for. */
module AccessFlags {
  import opened Dex

  const ACC_PUBLIC: Bit := 0          // 0x0001
  const ACC_PRIVATE: Bit := 1         // 0x0002
  const ACC_PROTECTED: Bit := 2       // 0x0004
  const ACC_STATIC: Bit := 3          // 0x0008
  const ACC_FINAL: Bit := 4           // 0x0010
  const ACC_SUPER: Bit := 5           // 0x0020
  const ACC_SYNCHRONIZED: Bit := 5    // 0x0020
  const ACC_BRIDGE: Bit := 6          // 0x0040
  const ACC_INTERFACE: Bit := 9       // 0x0200
  const ACC_ABSTRACT: Bit := 10       // 0x0400
  const ACC_SYNTHETIC: Bit := 12      // 0x1000
  const ACC_ANNOTATION: Bit := 13     // 0x2000
  /** ASM pseudo flag, not stored in the access_flags item. */
  const ACC_RECORD: Bit := 16         // 0x1_0000
  /** ASM pseudo flag, turned into a Deprecated attribute by the writer. */
  const ACC_DEPRECATED: Bit := 17     // 0x2_0000
  /** Dex's declared-synchronized bit: the same bit as ASM's ACC_DEPRECATED. */
  const DEX_DECLARED_SYNCHRONIZED: Bit := 17

  /** The `int` mask with only bit `b` set. */
  function MaskOf(b: Bit): nat
  {
    if b == 0 then 1 else 2 * MaskOf(b - 1)
  }

  /** The bit positions above are the masks of the class-file format and of
      ASM's pseudo flags. */
  lemma MasksAreClassFileValues()
    ensures MaskOf(ACC_PUBLIC) == 0x0001 && MaskOf(ACC_PRIVATE) == 0x0002
    ensures MaskOf(ACC_PROTECTED) == 0x0004 && MaskOf(ACC_STATIC) == 0x0008
    ensures MaskOf(ACC_FINAL) == 0x0010 && MaskOf(ACC_SUPER) == 0x0020
    ensures MaskOf(ACC_BRIDGE) == 0x0040 && MaskOf(ACC_INTERFACE) == 0x0200
    ensures MaskOf(ACC_ABSTRACT) == 0x0400 && MaskOf(ACC_SYNTHETIC) == 0x1000
    ensures MaskOf(ACC_ANNOTATION) == 0x2000 && MaskOf(ACC_RECORD) == 0x1_0000
    ensures MaskOf(ACC_DEPRECATED) == 0x2_0000
  {
  }

  /** `(flags & mask) != 0` for a one-bit mask. */
  predicate Has(flags: Flags, bit: Bit) {
    bit in flags
  }

  /** The three bits accessibility reads. */
  const ACCESS_BITS: set<Bit> := {ACC_PUBLIC, ACC_PROTECTED, ACC_SYNTHETIC}

  /** The settings of the three bits that make a word accessible: public,
      protected or both, never synthetic. */
  const ACCESSIBLE_PATTERNS: set<set<Bit>> := {{ACC_PUBLIC}, {ACC_PROTECTED}, {ACC_PUBLIC, ACC_PROTECTED}}

  /** A class or member is inaccessible when it is synthetic or neither public
      nor protected. */
  predicate IsInaccessible(flags: Flags)
  {
    Has(flags, ACC_SYNTHETIC) || (!Has(flags, ACC_PUBLIC) && !Has(flags, ACC_PROTECTED))
  }

  /** A flag word is inaccessible exactly when its three access bits form
      none of the three accessible patterns. */
  lemma InaccessiblePatterns(flags: Flags)
    ensures IsInaccessible(flags) <==> flags * ACCESS_BITS !in ACCESSIBLE_PATTERNS
  {
    var bits := flags * ACCESS_BITS;
    assert ACC_PUBLIC in bits <==> Has(flags, ACC_PUBLIC);
    assert ACC_PROTECTED in bits <==> Has(flags, ACC_PROTECTED);
    assert ACC_SYNTHETIC in bits <==> Has(flags, ACC_SYNTHETIC);
    assert bits <= ACCESS_BITS;
    if bits in ACCESSIBLE_PATTERNS {
      assert bits == {ACC_PUBLIC} || bits == {ACC_PROTECTED} || bits == {ACC_PUBLIC, ACC_PROTECTED};
    }
    if !Has(flags, ACC_SYNTHETIC) && (Has(flags, ACC_PUBLIC) || Has(flags, ACC_PROTECTED)) {
      if Has(flags, ACC_PUBLIC) && Has(flags, ACC_PROTECTED) {
        assert bits == {ACC_PUBLIC, ACC_PROTECTED};
      } else if Has(flags, ACC_PUBLIC) {
        assert bits == {ACC_PUBLIC};
      } else {
        assert bits == {ACC_PROTECTED};
      }
    }
  }

  /** Accessibility reads only the public, protected and synthetic bits. */
  lemma InaccessibleReadsThreeBits(f: Flags, g: Flags)
    requires f * ACCESS_BITS == g * ACCESS_BITS
    ensures IsInaccessible(f) == IsInaccessible(g)
  {
    assert Has(f, ACC_PUBLIC) == (ACC_PUBLIC in f * ACCESS_BITS);
    assert Has(g, ACC_PUBLIC) == (ACC_PUBLIC in g * ACCESS_BITS);
    assert Has(f, ACC_PROTECTED) == (ACC_PROTECTED in f * ACCESS_BITS);
    assert Has(g, ACC_PROTECTED) == (ACC_PROTECTED in g * ACCESS_BITS);
    assert Has(f, ACC_SYNTHETIC) == (ACC_SYNTHETIC in f * ACCESS_BITS);
    assert Has(g, ACC_SYNTHETIC) == (ACC_SYNTHETIC in g * ACCESS_BITS);
  }

  /** A public class that survived the synthetic filter is accessible, and
      (contrapositive) every inaccessible non-synthetic flag word is neither
      public nor protected. */
  lemma PublicNonSyntheticIsAccessible(f: Flags)
    ensures !Has(f, ACC_SYNTHETIC) ==> (IsInaccessible(f) <==> !Has(f, ACC_PUBLIC) && !Has(f, ACC_PROTECTED))
    ensures Has(f, ACC_PUBLIC) && !Has(f, ACC_SYNTHETIC) ==> !IsInaccessible(f)
  {
  }

  /** Re-derives the deprecated bit from the annotation test, clearing it when
      the test fails: the raw bit (dex's declared-synchronized) never survives. */
  function RecomputeDeprecated(flags: Flags, deprecated: bool): (r: Flags)
    ensures Has(r, ACC_DEPRECATED) <==> deprecated
    ensures r - {ACC_DEPRECATED} == flags - {ACC_DEPRECATED}
  {
    if deprecated then flags + {ACC_DEPRECATED} else flags - {ACC_DEPRECATED}
  }
}
