/** The heights a block locator names: the twelve most recent ones, then gaps that
    double, then genesis. */
module Locator {
  const LOG2_FLOOR_MASKS := [0xffff0000, 0xff00, 0xf0, 0xc, 0x2]

  function Pow2(n: nat): (r: nat)
    ensures r >= 1
  {
    if n == 0 then 1 else 2 * Pow2(n - 1)
  }

  lemma {:induction false} Pow2Grows(m: nat, n: nat)
    requires m < n
    ensures 2 * Pow2(m) <= Pow2(n)
  {
    if m + 1 < n { Pow2Grows(m, n - 1); }
  }

  /** `r` is `floor(log2(n))`. */
  ghost predicate IsLog2(n: nat, r: nat) {
    Pow2(r) <= n < Pow2(r + 1)
  }

  /** Bitwise and, and shifts by `e` bits. */
  function And(a: nat, b: nat): nat {
    if a == 0 || b == 0 then 0 else 2 * And(a / 2, b / 2) + (a % 2) * (b % 2)
  }

  function Shr(n: nat, e: nat): nat
    decreases e
  {
    if e == 0 then n else Shr(n / 2, e - 1)
  }

  function Shl(n: nat, e: nat): nat {
    if e == 0 then n else 2 * Shl(n, e - 1)
  }

  lemma {:induction false} AndShifted(m: nat, k: nat, e: nat)
    ensures And(m, Shl(k, e)) == Shl(And(Shr(m, e), k), e)
    decreases e
  {
    if e == 0 {
    } else if m == 0 {
      ShrZero(e);
      ShlZero(e);
    } else {
      AndShifted(m / 2, k, e - 1);
      AndDouble(m, Shl(k, e - 1));
    }
  }

  lemma AndDouble(m: nat, n: nat)
    ensures And(m, 2 * n) == 2 * And(m / 2, n)
  {
  }

  lemma {:induction false} ShrZero(e: nat)
    ensures Shr(0, e) == 0
  {
    if e > 0 { ShrZero(e - 1); }
  }

  lemma {:induction false} ShlZero(e: nat)
    ensures Shl(0, e) == 0
  {
    if e > 0 { ShlZero(e - 1); }
  }

  lemma {:induction false} ShlNonZero(n: nat, e: nat)
    ensures Shl(n, e) == 0 <==> n == 0
  {
    if e > 0 { ShlNonZero(n, e - 1); }
  }

  lemma {:induction false} AndOnes(x: nat, e: nat)
    requires x < Pow2(e)
    ensures And(x, Pow2(e) - 1) == x
  {
    if e > 0 && x > 0 {
      AndOnes(x / 2, e - 1);
      assert (Pow2(e) - 1) / 2 == Pow2(e - 1) - 1;
    }
  }

  /** Shifting by `e` takes `e` from the length and from the logarithm. */
  lemma {:induction false} ShrLog(m: nat, e: nat, a: nat)
    requires m < Pow2(a + e)
    ensures Shr(m, e) < Pow2(a)
    ensures Shr(m, e) > 0 <==> m >= Pow2(e)
    ensures forall r: nat :: IsLog2(Shr(m, e), r) ==> IsLog2(m, r + e)
    decreases e
  {
    if e > 0 {
      ShrLog(m / 2, e - 1, a);
      forall r: nat | IsLog2(Shr(m, e), r)
        ensures IsLog2(m, r + e)
      {
        assert IsLog2(m / 2, r + (e - 1));
      }
    }
  }

  lemma {:induction false} ShlMul(n: nat, e: nat)
    ensures Shl(n, e) == n * Pow2(e)
  {
    if e > 0 { ShlMul(n, e - 1); }
  }

  lemma {:induction false} Pow2Add(a: nat, b: nat)
    ensures Pow2(a + b) == Pow2(a) * Pow2(b)
  {
    if a > 0 { Pow2Add(a - 1, b); }
  }

  lemma PowerValues()
    ensures Pow2(1) == 2 && Pow2(2) == 4 && Pow2(4) == 16 && Pow2(8) == 256 && Pow2(16) == 65536 && Pow2(32) == 0x1_0000_0000
  {
    Squared(2);
    Squared(4);
    Squared(8);
    Squared(16);
    assert Pow2(2) == 2 * Pow2(1) == 4;
  }

  lemma Squared(a: nat)
    ensures Pow2(2 * a) == Pow2(a) * Pow2(a)
  {
    hide Pow2;
    Pow2Add(a, a);
  }

  lemma MaskValues()
    ensures Pow2(1) == 2 && Pow2(2) == 4 && Pow2(4) == 16 && Pow2(8) == 256 && Pow2(16) == 65536 && Pow2(32) == 0x1_0000_0000
    ensures Shl(Pow2(16) - 1, 16) == LOG2_FLOOR_MASKS[0]
    ensures Shl(Pow2(8) - 1, 8) == LOG2_FLOOR_MASKS[1]
    ensures Shl(Pow2(4) - 1, 4) == LOG2_FLOOR_MASKS[2]
    ensures Shl(Pow2(2) - 1, 2) == LOG2_FLOOR_MASKS[3]
    ensures Shl(Pow2(1) - 1, 1) == LOG2_FLOOR_MASKS[4]
  {
    hide Pow2, Shl;
    PowerValues();
    ShlMul(65535, 16);
    ShlMul(255, 8);
    ShlMul(15, 4);
    ShlMul(3, 2);
    ShlMul(1, 1);
  }

  /** The mask of a step selects bits `e` to `2e - 1`, so it tells whether `m` has more than `e` bits. */
  lemma MaskTest(m: nat, e: nat)
    requires m < Pow2(e + e)
    ensures And(m, Shl(Pow2(e) - 1, e)) != 0 <==> m >= Pow2(e)
  {
    ShrLog(m, e, e);
    AndShifted(m, Pow2(e) - 1, e);
    AndOnes(Shr(m, e), e);
    ShlNonZero(Shr(m, e), e);
  }

  method FastLog2Floor(n: nat) returns (rv: nat)
    requires n < 0x1_0000_0000
    ensures n == 0 ==> rv == 0
    ensures n > 0 ==> IsLog2(n, rv)
  {
    hide Pow2, And, Shr, Shl, IsLog2;
    MaskValues();
    rv := 0;
    var m: nat, exponent: nat, i := n, 16, 0;
    while i < 5
      invariant 0 <= i <= 5
      invariant exponent == [16, 8, 4, 2, 1, 0][i]
      invariant m < Pow2([32, 16, 8, 4, 2, 1][i])
      invariant (m > 0 <==> n > 0) && (n == 0 ==> rv == 0)
      invariant forall r: nat :: IsLog2(m, r) ==> IsLog2(n, r + rv)
    {
      MaskTest(m, exponent);
      ShrLog(m, exponent, exponent);
      if And(m, LOG2_FLOOR_MASKS[i]) != 0 {
        forall r: nat | IsLog2(Shr(m, exponent), r)
          ensures IsLog2(n, r + (rv + exponent))
        {
          assert IsLog2(m, r + exponent);
          assert IsLog2(n, (r + exponent) + rv);
        }
        rv := rv + exponent;
        m := Shr(m, exponent);
      }
      exponent, i := exponent / 2, i + 1;
    }
    if n > 0 {
      OneHasLogZero();
      assert IsLog2(m, 0);
    }
  }

  lemma OneHasLogZero()
    ensures IsLog2(1, 0)
  {
  }

  /** How far entry `k` lies behind the first one, before clamping at genesis. */
  function Back(k: nat): nat {
    if k <= 10 then k else 9 + Pow2(k - 10)
  }

  /** The height of entry `k` of the locator of a block of height `h`. */
  function EntryHeight(h: nat, k: nat): nat {
    if Back(k) >= h then 0 else h - Back(k)
  }

  /** The entries up to the first one at genesis. */
  ghost predicate IsLength(h: nat, len: nat) {
    len > 0 && EntryHeight(h, len - 1) == 0 && forall k: nat | k < len - 1 :: EntryHeight(h, k) > 0
  }

  lemma BackGrows(j: nat, k: nat)
    requires j < k
    ensures Back(j) < Back(k)
  {
    if j > 10 { Pow2Grows(j - 10, k - 10); }
  }

  /** The heights are `h - k` up to the twelfth entry, and strictly decreasing. */
  lemma HeightsDecrease(h: nat, len: nat, j: nat, k: nat)
    requires IsLength(h, len) && j < k < len
    ensures EntryHeight(h, j) > EntryHeight(h, k)
    ensures k <= 11 ==> EntryHeight(h, k) == h - k
    ensures k >= 10 ==> EntryHeight(h, k) == if h - 9 - Pow2(k - 10) > 0 then h - 9 - Pow2(k - 10) else 0
  {
    BackGrows(j, k);
    assert EntryHeight(h, k - 1) > 0 && EntryHeight(h, j) > 0;
  }

  /** The number of entries has the closed form the code preallocates for. */
  lemma LengthFormula(h: nat, r: nat)
    requires h > 12 ==> IsLog2(h - 10, r)
    ensures IsLength(h, if h <= 12 then h + 1 else 12 + r)
  {
    hide Pow2;
    var len := if h <= 12 then h + 1 else 12 + r;
    Pow2Small();
    forall k: nat | k < len - 1
      ensures EntryHeight(h, k) > 0
    {
      if h > 12 && k > 10 && k - 10 < r { Pow2Grows(k - 10, r); }
    }
  }

  lemma Pow2Small()
    ensures Pow2(0) == 1 && Pow2(1) == 2 && Pow2(2) == 4
  {
  }

  /** The step that leads from entry `k` to the next. */
  function StepAt(k: nat): nat {
    if k <= 10 then 1 else Pow2(k - 10)
  }

  lemma NextHeight(h: nat, k: nat)
    requires EntryHeight(h, k) > 0
    ensures EntryHeight(h, k + 1) == if EntryHeight(h, k) > StepAt(k) then EntryHeight(h, k) - StepAt(k) else 0
    ensures StepAt(k + 1) == if k + 1 > 10 then 2 * StepAt(k) else StepAt(k)
    ensures EntryHeight(h, k + 1) < EntryHeight(h, k) && (EntryHeight(h, k + 1) > 0 ==> StepAt(k + 1) < h)
  {
  }

  lemma LengthUnique(h: nat, len: nat, len': nat)
    requires IsLength(h, len) && IsLength(h, len')
    ensures len == len'
  {
  }
}
