/**
  Command flags: fixed-width condition masks that gate whether a menu item
  (a command) may run. Bit `i` stands for the i-th registered condition; a
  command's requirement is the bitwise OR of the conditions it needs, and the
  command is enabled when every required bit is present in the current mask.
 */
module CommandFlags {

  /** Capacity of the mask: the number of conditions that can ever be registered. */
  const NCommandFlags: nat := 64

  /** A condition mask of exactly `NCommandFlags` bits. */
  type CommandFlag = bv64

  /** Bit position of a mask: a 6-bit number, 0 .. NCommandFlags - 1. */
  type Position = bv6

  /**
    The position reserved by the `k`-th registration (zero-based). It is
    counted up one registration at a time rather than written as a cast
    `k as Position`: proofs about consecutive registrations then unfold one
    step at a time, and the verifier is spared most reasoning about
    conversions between integers and bit-vectors, which it handles slowly.
   */
  function PositionOf(k: nat): (p: Position)
    requires k < NCommandFlags
    ensures p as int == k
  {
    if k == 0 then 0 else PositionOf(k - 1) + 1
  }

  /** The mask with only bit `i` set. */
  function Single(i: Position): CommandFlag {
    (1 as bv64) << i
  }

  /** Whether bit `i` is set in `m`. */
  predicate Has(m: CommandFlag, i: Position) {
    m & Single(i) != 0
  }

  /** The positions set in `m`: the abstract, set-of-conditions view of a mask. */
  ghost function BitsOf(m: CommandFlag): set<Position> {
    set i | i in AllPositions() && Has(m, i)
  }

  /** The positions reserved by the first `n` registrations. */
  ghost function PositionsBelow(n: nat): set<Position>
    requires n <= NCommandFlags
  {
    set k: nat | k < n :: PositionOf(k)
  }

  /** Every position of the mask. */
  ghost function AllPositions(): set<Position> {
    PositionsBelow(NCommandFlags)
  }

  /** Requirement that is satisfied by any state: no bit set. */
  const AlwaysEnabledFlag: CommandFlag := 0

  /**
    The all-ones mask, built from the all-ones `unsigned long long` (`~0ULL`).
    The mask is exactly as wide as that word, so every bit of it carries over.
   */
  const NoFlagsSpecified: CommandFlag := !(0 as bv64)

  /** The composite requirement of two conditions. */
  function Union(a: CommandFlag, b: CommandFlag): (r: CommandFlag)
    ensures forall i: Position :: Has(r, i) <==> Has(a, i) || Has(b, i)
  {
    UnionBits(a, b);
    a | b
  }

  /** The bits of `required` that `current` lacks. */
  function Missing(required: CommandFlag, current: CommandFlag): (r: CommandFlag)
    ensures forall i: Position :: Has(r, i) <==> Has(required, i) && !Has(current, i)
  {
    MissingBits(required, current);
    required & !current
  }

  lemma UnionBits(a: CommandFlag, b: CommandFlag)
    ensures forall i: Position :: Has(a | b, i) <==> Has(a, i) || Has(b, i)
  {
  }

  lemma MissingBit(required: CommandFlag, current: CommandFlag, i: Position)
    ensures Has(required & !current, i) <==> Has(required, i) && !Has(current, i)
  {
    var s := Single(i);
    assert (required & !current) & s == (required & s) & !(current & s);
  }

  lemma MissingBits(required: CommandFlag, current: CommandFlag)
    ensures forall i: Position :: Has(required & !current, i) <==> Has(required, i) && !Has(current, i)
  {
    forall i: Position {
      MissingBit(required, current, i);
    }
  }

  /** A command requiring `required` is enabled in state `current`. */
  predicate Satisfies(current: CommandFlag, required: CommandFlag) {
    current & required == required
  }

  /**
    The lowest set bit of a non-zero mask, found by isolating it
    (`d & -d`) and reading off its index one binary digit at a time.
   */
  function LowestBit(d: CommandFlag): (c: Position)
    requires d != 0
    ensures Has(d, c)
  {
    var low := d & (!d + 1);
    (if low & 0xFFFF_FFFF_0000_0000 != 0 then 32 else 0)
    | (if low & 0xFFFF_0000_FFFF_0000 != 0 then 16 else 0)
    | (if low & 0xFF00_FF00_FF00_FF00 != 0 then 8 else 0)
    | (if low & 0xF0F0_F0F0_F0F0_F0F0 != 0 then 4 else 0)
    | (if low & 0xCCCC_CCCC_CCCC_CCCC != 0 then 2 else 0)
    | (if low & 0xAAAA_AAAA_AAAA_AAAA != 0 then 1 else 0)
  }

  /** A bit set in `x ^ y` is a bit on which `x` and `y` differ. */
  lemma DifferAt(x: CommandFlag, y: CommandFlag, c: Position)
    requires Has(x ^ y, c)
    ensures Has(x, c) != Has(y, c)
  {
  }

  /** A position on which two different masks differ. */
  function DifferingBit(x: CommandFlag, y: CommandFlag): (c: Position)
    requires x != y
    ensures Has(x, c) != Has(y, c)
  {
    assert x ^ y != 0;
    var c := LowestBit(x ^ y);
    DifferAt(x, y, c);
    c
  }

  /** A mask is determined by its set bits. */
  lemma Extensionality(x: CommandFlag, y: CommandFlag)
    requires forall i: Position :: Has(x, i) <==> Has(y, i)
    ensures x == y
  {
    if x != y {
      var c := DifferingBit(x, y);
      assert false;
    }
  }

  /** Membership in the set view is the bit test. */
  lemma InBitsOf(m: CommandFlag, i: Position)
    ensures i in BitsOf(m) <==> Has(m, i)
  {
    PositionRoundTrip(i);
  }

  /** Two masks are equal exactly when they have the same set of bits. */
  lemma BitsOfInjective(x: CommandFlag, y: CommandFlag)
    ensures x == y <==> BitsOf(x) == BitsOf(y)
  {
    if BitsOf(x) == BitsOf(y) {
      forall i: Position ensures Has(x, i) <==> Has(y, i) {
        InBitsOf(x, i);
        InBitsOf(y, i);
      }
      Extensionality(x, y);
    }
  }

  /** Bit `j` of `Single(i)` is set exactly when `j == i`. */
  lemma SingleHas(i: Position, j: Position)
    ensures Has(Single(i), j) <==> i == j
  {
  }

  /** `Single(i)` has exactly one bit, at position `i`. */
  lemma SingleBits(i: Position)
    ensures BitsOf(Single(i)) == {i}
    ensures |BitsOf(Single(i))| == 1
  {
    forall j: Position ensures j in BitsOf(Single(i)) <==> j == i {
      SingleHas(i, j);
      InBitsOf(Single(i), j);
    }
  }

  /** The bits of two distinct positions never overlap. */
  lemma SingleDisjoint(i: Position, j: Position)
    requires i != j
    ensures Single(i) & Single(j) == 0
  {
  }

  /** A requirement of one condition is satisfied exactly when that condition holds. */
  lemma SatisfiesSingle(current: CommandFlag, i: Position)
    ensures Satisfies(current, Single(i)) <==> Has(current, i)
  {
  }

  /**
    Satisfaction is set inclusion: a command is enabled exactly when every
    condition it requires is among the current ones.
   */
  lemma SatisfiesIffSubset(current: CommandFlag, required: CommandFlag)
    ensures Satisfies(current, required) <==> BitsOf(required) <= BitsOf(current)
  {
    if Satisfies(current, required) {
      forall i | i in BitsOf(required) ensures i in BitsOf(current) {
        InBitsOf(required, i);
        InBitsOf(current, i);
        AndBit(current, required, i);
      }
    }
    if BitsOf(required) <= BitsOf(current) {
      forall i: Position ensures Has(current & required, i) <==> Has(required, i) {
        InBitsOf(required, i);
        InBitsOf(current, i);
        AndBit(current, required, i);
      }
      Extensionality(current & required, required);
    }
  }

  lemma AndBit(a: CommandFlag, b: CommandFlag, i: Position)
    ensures Has(a & b, i) <==> Has(a, i) && Has(b, i)
  {
  }

  /** A command is enabled exactly when nothing it requires is missing. */
  lemma SatisfiesIffNothingMissing(current: CommandFlag, required: CommandFlag)
    ensures Satisfies(current, required) <==> Missing(required, current) == AlwaysEnabledFlag
  {
    MaskIdentity(current, required);
  }

  lemma MaskIdentity(c: bv64, r: bv64)
    ensures (c & r == r) <==> (r & !c == 0)
  {
    if c & r == r {
      CoveredLeavesNothing(c, r);
    }
    if r & !c == 0 {
      NothingLeftIsCovered(c, r);
    }
  }

  lemma CoveredLeavesNothing(c: bv64, r: bv64)
    requires c & r == r
    ensures r & !c == 0
  {
  }

  lemma NothingLeftIsCovered(c: bv64, r: bv64)
    requires r & !c == 0
    ensures c & r == r
  {
  }

  /** `AlwaysEnabledFlag` has no bits and is satisfied by every state. */
  lemma AlwaysEnabledIsEmpty(current: CommandFlag)
    ensures BitsOf(AlwaysEnabledFlag) == {}
    ensures Satisfies(current, AlwaysEnabledFlag)
  {
  }

  /** Every position is reserved by the registration of the same number. */
  lemma PositionRoundTrip(i: Position)
    ensures (i as int) < NCommandFlags && PositionOf(i as int) == i
  {
  }

  /** Registration `n` reserves a position no earlier registration reserved. */
  lemma PositionNotBelow(n: nat)
    requires n < NCommandFlags
    ensures PositionOf(n) !in PositionsBelow(n)
  {
    forall k: nat | k < n ensures PositionOf(k) != PositionOf(n) {
      assert PositionOf(k) as int == k;
    }
  }

  /** Every position below `n + 1` is below `n` or is the position of `n`. */
  lemma PositionsBelowSplit(n: nat)
    requires n < NCommandFlags
    ensures PositionsBelow(n + 1) <= PositionsBelow(n) + {PositionOf(n)}
  {
    forall x | x in PositionsBelow(n + 1) ensures x in PositionsBelow(n) + {PositionOf(n)} {
      var k: nat :| k < n + 1 && PositionOf(k) == x;
      if k < n {
        assert PositionOf(k) in PositionsBelow(n);
      } else {
        assert x == PositionOf(n);
      }
    }
  }

  /** The positions below `n`, and the position of `n`, are below `n + 1`. */
  lemma PositionsBelowGrow(n: nat)
    requires n < NCommandFlags
    ensures PositionsBelow(n) + {PositionOf(n)} <= PositionsBelow(n + 1)
  {
    forall x | x in PositionsBelow(n) + {PositionOf(n)} ensures x in PositionsBelow(n + 1) {
      if x != PositionOf(n) {
        var k: nat :| k < n && PositionOf(k) == x;
        assert PositionOf(k) in PositionsBelow(n + 1);
      }
    }
  }

  /** The positions below `n + 1` are those below `n` and the position of `n`. */
  lemma PositionsBelowStep(n: nat)
    requires n < NCommandFlags
    ensures PositionsBelow(n + 1) == PositionsBelow(n) + {PositionOf(n)}
  {
    PositionsBelowSplit(n);
    PositionsBelowGrow(n);
  }

  /** There are exactly `n` positions below `n`. */
  lemma {:induction false} PositionsBelowCard(n: nat)
    requires n <= NCommandFlags
    ensures |PositionsBelow(n)| == n
  {
    if n > 0 {
      PositionsBelowCard(n - 1);
      PositionNotBelow(n - 1);
      PositionsBelowStep(n - 1);
    }
  }

  /**
    `NoFlagsSpecified` has all `NCommandFlags` bits set. The mask is no wider
    than the 64-bit word, so the all-ones word fills every position.
   */
  lemma NoFlagsSpecifiedIsFull()
    ensures forall i: Position :: Has(NoFlagsSpecified, i)
    ensures BitsOf(NoFlagsSpecified) == AllPositions()
    ensures |BitsOf(NoFlagsSpecified)| == NCommandFlags
  {
    forall i: Position ensures i in AllPositions() {
      PositionRoundTrip(i);
    }
    PositionsBelowCard(NCommandFlags);
  }
}
