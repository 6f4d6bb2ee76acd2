/** Compact difficulty targets: an exponent of base 256 and a 23-bit mantissa. */
module Difficulty {
  import opened Bytes

  const SIGN_BIT := 0x80_0000
  const MANTISSA := 0x100_0000

  /** The length of `n` in bytes. */
  function ByteLength(n: nat): nat {
    if n == 0 then 0 else 1 + ByteLength(n / 256)
  }

  lemma {:induction false} ByteLengthBounds(n: nat)
    requires n > 0
    ensures ByteLength(n) > 0 && Pow256(ByteLength(n) - 1) <= n < Pow256(ByteLength(n))
  {
    if n >= 256 { ByteLengthBounds(n / 256); }
  }

  lemma {:induction false} Pow256Add(a: nat, b: nat)
    ensures Pow256(a + b) == Pow256(a) * Pow256(b)
  {
    if a > 0 { Pow256Add(a - 1, b); }
  }

  /** The number a compact form stands for. */
  function CompactToBig(compact: nat): int {
    var mantissa := compact % SIGN_BIT;
    var exponent := compact / MANTISSA;
    var n := if exponent <= 3 then ShiftRight(mantissa, 3 - exponent) else ShiftLeft(mantissa, exponent - 3);
    if compact / SIGN_BIT % 2 == 1 then -n else n
  }

  /** `m` and `e` are the normalised mantissa and exponent of `n`: the mantissa has
      16 to 23 bits and is `n` scaled by 256 to the power `3 - e`, rounded down. */
  ghost predicate Normal(n: nat, m: nat, e: nat) {
    0x8000 <= m < SIGN_BIT && m * Pow256(e) <= n * MANTISSA < (m + 1) * Pow256(e)
  }

  /** Shifts by whole bytes. */
  function ShiftLeft(n: nat, k: nat): (r: nat)
    ensures r == n * Pow256(k)
  {
    if k == 0 then n else 256 * ShiftLeft(n, k - 1)
  }

  function ShiftRight(n: nat, k: nat): nat {
    if k == 0 then n else ShiftRight(n / 256, k - 1)
  }

  lemma {:induction false} ShiftRightBounds(n: nat, k: nat)
    ensures ShiftRight(n, k) * Pow256(k) <= n < (ShiftRight(n, k) + 1) * Pow256(k)
  {
    if k > 0 {
      var r := ShiftRight(n, k);
      ShiftRightBounds(n / 256, k - 1);
      Assoc(r, 256, Pow256(k - 1));
      Assoc(r + 1, 256, Pow256(k - 1));
    }
  }

  /** `n` scaled to three bytes. */
  function Scaled(n: nat): nat {
    var len := ByteLength(n);
    if len <= 3 then ShiftLeft(n, 3 - len) else ShiftRight(n, len - 3)
  }

  /** Mantissa and exponent, one byte further if the sign bit would be set. */
  function Parts(n: nat): (nat, nat) {
    var m, e := Scaled(n), ByteLength(n);
    if m / SIGN_BIT % 2 == 1 then (m / 256, e + 1) else (m, e)
  }

  /** The 32-bit form: an exponent above 255 is cut to its low byte. */
  function ToCompact(n: nat): nat {
    if n == 0 then 0 else Parts(n).1 % 256 * MANTISSA + Parts(n).0
  }

  /** The numbers whose exponent fits the byte it is given. */
  function Limit(): nat {
    ShiftLeft(SIGN_BIT, 252)
  }

  /** The scaled magnitude of a negative number: the arithmetic shift rounds it up. */
  function CeilScaled(a: nat): nat
    requires a > 0
  {
    var len := ByteLength(a);
    if len <= 3 then ShiftLeft(a, 3 - len) else ShiftRight(a - 1, len - 3) + 1
  }

  function NegativeParts(a: nat): (nat, nat)
    requires a > 0
  {
    var m, e := CeilScaled(a), ByteLength(a);
    if m / SIGN_BIT % 2 == 1 then (m / 256, e + 1) else (m, e)
  }

  /** The bitwise or of the shifted exponent and a mantissa of at most 24 bits, or 2^24. */
  function Packed(m: nat, e: nat): nat {
    if m < MANTISSA then e % 256 * MANTISSA + m else (e % 256 + 1 - e % 2) * MANTISSA
  }

  /** The 32-bit form of a negative number, the sign bit set. */
  function NegativeCompact(a: nat): nat
    requires a > 0
  {
    Packed(NegativeParts(a).0, NegativeParts(a).1) + SIGN_BIT
  }

  method BigToCompact(n: int) returns (compact: nat)
    ensures compact == if n >= 0 then ToCompact(n) else NegativeCompact(-n)
  {
    hide ShiftLeft, ShiftRight, ByteLength;
    if n == 0 { return 0; }
    var a := if n < 0 then -n else n;
    var exponent, mantissa := ByteLength(a), 0;
    if n > 0 { ScaledRange(a); }
    if exponent <= 3 {
      mantissa := ShiftLeft(a, 3 - exponent);
    } else if n < 0 {
      mantissa := ShiftRight(a - 1, exponent - 3) + 1;
    } else {
      mantissa := ShiftRight(a, exponent - 3);
    }
    if mantissa / SIGN_BIT % 2 == 1 {
      mantissa := mantissa / 256;
      exponent := exponent + 1;
    }
    compact := Packed(mantissa, exponent);
    if n < 0 {
      compact := compact + SIGN_BIT;
    }
  }

  lemma MulLess(a: nat, b: nat, p: nat)
    requires p > 0
    ensures a * p < b * p <==> a < b
    ensures a * p <= b * p <==> a <= b
  {
  }

  lemma Assoc(a: int, b: int, c: int)
    ensures a * b * c == a * (b * c) == a * c * b
  {
  }

  /** Scaling by whole bytes, before the sign bit is looked at. */
  lemma ScaledBounds(n: nat)
    requires n > 0
    ensures var p := Pow256(ByteLength(n)); Scaled(n) * p <= n * MANTISSA < (Scaled(n) + 1) * p
  {
    hide Pow256, ByteLength;
    var len := ByteLength(n);
    ThreeBytes();
    if len <= 3 {
      Pow256Add(3 - len, len);
      Assoc(n, Pow256(3 - len), Pow256(len));
      Distribute(Scaled(n), Pow256(len));
    } else {
      var q := Pow256(len - 3);
      Pow256Add(len - 3, 3);
      ShiftRightBounds(n, len - 3);
      Assoc(Scaled(n), q, MANTISSA);
      Assoc(Scaled(n) + 1, q, MANTISSA);
    }
  }

  lemma Distribute(a: nat, p: nat)
    requires p > 0
    ensures a * p < (a + 1) * p == a * p + p
  {
  }

  lemma DivBounds(n: nat, q: nat)
    requires q > 0
    ensures 0 <= n / q && n / q * q <= n < (n / q + 1) * q
  {
  }

  lemma ThreeBytes()
    ensures Pow256(0) == 1 && Pow256(1) == 256 && Pow256(2) == 0x1_0000 && Pow256(3) == MANTISSA
  {
  }

  lemma ScaledRange(n: nat)
    requires n > 0
    ensures 0x1_0000 <= Scaled(n) < MANTISSA && ByteLength(n) > 0
  {
    hide Pow256, ByteLength, Scaled;
    var p := Pow256(ByteLength(n));
    ByteLengthBounds(n);
    ScaledBounds(n);
    Pow256Add(1, ByteLength(n) - 1);
    ThreeBytes();
    MulLess(Scaled(n), MANTISSA, p);
    MulLess(0x1_0000, Scaled(n) + 1, p);
  }

  lemma PartsNormal(n: nat)
    requires n > 0
    ensures Normal(n, Parts(n).0, Parts(n).1) && Parts(n).1 > 0
  {
    hide Pow256, ByteLength, Scaled;
    ScaledBounds(n);
    ScaledRange(n);
    var m, e := Scaled(n), ByteLength(n);
    var p := Pow256(e);
    if m / SIGN_BIT % 2 == 1 {
      Pow256Add(1, e);
      ThreeBytes();
      Assoc(m / 256, 256, p);
      Assoc(m / 256 + 1, 256, p);
      MulLess(m / 256 * 256, m, p);
      MulLess(m + 1, (m / 256 + 1) * 256, p);
    }
  }

  /** Normal forms compare like the numbers. */
  lemma NormalOrder(n1: nat, m1: nat, e1: nat, n2: nat, m2: nat, e2: nat)
    requires Normal(n1, m1, e1) && Normal(n2, m2, e2) && n1 <= n2
    ensures e1 < e2 || (e1 == e2 && m1 <= m2)
  {
    hide Pow256;
    if e1 == e2 {
      MulLess(m1, m2 + 1, Pow256(e2));
    } else if e1 > e2 {
      Pow256Add(e1 - e2, e2);
      PowAtLeast(e1 - e2);
      var p := Pow256(e2);
      Assoc(m1, Pow256(e1 - e2), p);
      MulLess(m1 * Pow256(e1 - e2), m2 + 1, p);
      MulLess(256, Pow256(e1 - e2), m1);
      assert false;
    }
  }

  lemma PowAtLeast(e: nat)
    requires e > 0
    ensures Pow256(e) >= 256
  {
  }

  lemma PowMonotone(a: nat, b: nat)
    requires a <= b
    ensures Pow256(a) <= Pow256(b)
  {
    hide Pow256;
    Pow256Add(b - a, a);
    MulLess(1, Pow256(b - a), Pow256(a));
  }

  lemma ExponentFits(n: nat)
    requires n > 0
    ensures Parts(n).1 < 256 <==> n < Limit()
  {
    hide Pow256, Parts, ShiftLeft;
    PartsNormal(n);
    var (m, e) := Parts(n);
    var p := Pow256(252);
    Pow256Add(252, 3);
    ThreeBytes();
    Assoc(SIGN_BIT, p, MANTISSA);
    if e < 256 {
      PowMonotone(e, 255);
      MulLess(Pow256(e), Pow256(255), m + 1);
      MulLess(m + 1, SIGN_BIT, Pow256(255));
    } else {
      Pow256Add(1, 255);
      PowMonotone(256, e);
      MulLess(Pow256(256), Pow256(e), m);
      MulLess(0x8000, m, Pow256(256));
    }
  }

  lemma ToCompactMonotone(n1: nat, n2: nat)
    requires n1 <= n2 < Limit()
    ensures ToCompact(n1) <= ToCompact(n2)
  {
    hide Parts, Limit;
    if n1 > 0 {
      ExponentFits(n1);
      ExponentFits(n2);
      PartsNormal(n1);
      PartsNormal(n2);
      NormalOrder(n1, Parts(n1).0, Parts(n1).1, n2, Parts(n2).0, Parts(n2).1);
    }
  }

  /** Reading a normal form back: exact up to exponent 3, the scaled mantissa beyond. */
  lemma FromNormal(n: nat, m: nat, e: nat)
    requires Normal(n, m, e) && 0 < e < 256
    ensures var r := CompactToBig(e * MANTISSA + m); if e <= 3 then r == n else r == m * Pow256(e - 3)
  {
    hide Pow256;
    Unpack(m, e);
    if e <= 3 { SmallExact(n, m, e); }
  }

  /** The three fields do not overlap. */
  lemma Unpack(m: nat, e: nat)
    requires m < SIGN_BIT
    ensures var c := e * MANTISSA + m; c % SIGN_BIT == m && c / MANTISSA == e && c / SIGN_BIT % 2 == 0
  {
    assert e * MANTISSA + m == (2 * e) * SIGN_BIT + m;
  }

  lemma SmallExact(n: nat, m: nat, e: nat)
    requires Normal(n, m, e) && 0 < e <= 3
    ensures ShiftRight(m, 3 - e) == n
  {
    ThreeBytes();
    if e == 1 { assert ShiftRight(m, 2) == ShiftRight(m / 256, 1) == m / 256 / 256; }
  }

  /** `r` is `n` rounded down by less than one part in 2^15. */
  ghost predicate Rounded(n: nat, r: int) {
    0 <= r <= n && (n > 0 ==> (n - r) * 0x8000 < n)
  }

  lemma NormalRounded(n: nat, m: nat, e: nat)
    requires Normal(n, m, e) && e > 3
    ensures Rounded(n, m * Pow256(e - 3)) && n >= SIGN_BIT
  {
    hide Pow256;
    var q := Pow256(e - 3);
    Pow256Add(e - 3, 3);
    ThreeBytes();
    Assoc(m, q, MANTISSA);
    Assoc(m + 1, q, MANTISSA);
    Distribute(m, q);
    MulLess(0x8000, m, q);
    PowAtLeast(e - 3);
    MulLess(256, q, m);
  }

  /** A cut exponent gives a number at least 256 times too small. */
  lemma CutExponent(n: nat, m: nat, e: nat)
    requires Normal(n, m, e) && e >= 256
    ensures var r := CompactToBig(e % 256 * MANTISSA + m); 0 <= r && 256 * r <= n && !Rounded(n, r)
  {
    hide Pow256, ShiftLeft, ShiftRight;
    var k := e % 256;
    Unpack(m, k);
    ShiftedBelow(m, k);
    FarBelow(n, m, e, k);
  }

  lemma FarBelow(n: nat, m: nat, e: nat, k: nat)
    requires Normal(n, m, e) && k + 4 <= e
    ensures m * Pow256(k) * 256 <= n && n > 0
  {
    hide Pow256;
    NormalRounded(n, m, e);
    PowMonotone(k + 4, e);
    Pow256Add(k, 4);
    FourBytes();
    Scale(m, Pow256(k) * 0x1_0000_0000, Pow256(e));
    Assoc(m, Pow256(k), 0x1_0000_0000);
  }

  lemma FourBytes()
    ensures Pow256(4) == 0x1_0000_0000
  {
    ThreeBytes();
  }

  lemma ShiftedBelow(m: nat, k: nat)
    ensures k <= 3 ==> ShiftRight(m, 3 - k) <= m * Pow256(k)
    ensures k > 3 ==> ShiftLeft(m, k - 3) <= m * Pow256(k)
  {
    hide Pow256;
    if k <= 3 {
      ShiftRightBounds(m, 3 - k);
      PowMonotone(0, k);
      Multiply(ShiftRight(m, 3 - k), Pow256(3 - k), m, Pow256(k));
    } else {
      PowMonotone(k - 3, k);
      Scale(m, Pow256(k - 3), Pow256(k));
    }
  }

  lemma Multiply(a: nat, p: nat, m: nat, q: nat)
    requires a * p <= m && p >= 1 && q >= 1
    ensures a <= m * q
  {
    Scale(a, 1, p);
    Scale(m, 1, q);
  }

  lemma Scale(a: nat, p: nat, q: nat)
    requires p <= q
    ensures a * p <= a * q
  {
  }

  /** Numbers below 2^23 survive; all others are rounded down by less than one part in
      2^15 exactly when their exponent fits. */
  lemma RoundsDown(n: nat)
    ensures n < SIGN_BIT ==> CompactToBig(ToCompact(n)) == n
    ensures Rounded(n, CompactToBig(ToCompact(n))) <==> n < Limit()
  {
    hide Pow256, Parts, CompactToBig, Limit, Normal;
    BelowLimit();
    if n == 0 {
      ZeroCompact();
    } else {
      PartsNormal(n);
      ExponentFits(n);
      var (m, e) := Parts(n);
      if e >= 256 {
        CutExponent(n, m, e);
      } else {
        FromNormal(n, m, e);
        if e > 3 { NormalRounded(n, m, e); }
      }
    }
  }

  lemma BelowLimit()
    ensures SIGN_BIT <= Limit()
  {
    hide Pow256, ShiftLeft;
    Scale(SIGN_BIT, 1, Pow256(252));
  }

  lemma ZeroCompact()
    ensures CompactToBig(ToCompact(0)) == 0
  {
    assert ToCompact(0) == 0;
    assert ShiftRight(0, 3) == ShiftRight(0, 2) == ShiftRight(0, 1) == 0;
  }

  /** Rounding twice is rounding once. */
  lemma Idempotent(n: nat)
    requires n < Limit()
    ensures CompactToBig(ToCompact(n)) >= 0
    ensures ToCompact(CompactToBig(ToCompact(n))) == ToCompact(n)
  {
    hide Pow256, Parts, CompactToBig, Limit, Normal;
    RoundsDown(n);
    if n > 0 {
      PartsNormal(n);
      ExponentFits(n);
      var (m, e) := Parts(n);
      FromNormal(n, m, e);
      if e > 3 {
        var r := m * Pow256(e - 3);
        StillNormal(n, m, e);
        PartsNormal(r);
        NormalOrder(r, m, e, r, Parts(r).0, Parts(r).1);
        NormalOrder(r, Parts(r).0, Parts(r).1, r, m, e);
      }
    }
  }

  lemma StillNormal(n: nat, m: nat, e: nat)
    requires Normal(n, m, e) && e > 3
    ensures m * Pow256(e - 3) > 0 && Normal(m * Pow256(e - 3), m, e)
  {
    hide Pow256;
    var q := Pow256(e - 3);
    Pow256Add(e - 3, 3);
    ThreeBytes();
    Assoc(m, q, MANTISSA);
    Distribute(m, Pow256(e));
    Scale(m, 1, q);
  }

  /** `r` is off `a` by less than one part in 2^15. */
  ghost predicate Near(a: nat, r: int) {
    r >= 0 && (a - r) * 0x8000 < a && (r - a) * 0x8000 < a
  }

  /** Rounding up carries into a fourth byte: the top three bytes are all ones, and more follows. */
  predicate Carries(a: nat) {
    ByteLength(a) > 3 && a > (MANTISSA - 1) * Pow256(ByteLength(a) - 3)
  }

  lemma CarriesIff(a: nat)
    requires a > 0
    ensures Carries(a) <==> ByteLength(a) > 3 && CeilScaled(a) == MANTISSA
  {
    hide Pow256, ByteLength, CeilScaled;
    if ByteLength(a) > 3 {
      CeilBounds(a);
      MulLess(CeilScaled(a), MANTISSA - 1, Pow256(ByteLength(a) - 3));
    }
  }

  /** The magnitudes whose exponent fits the byte it is given. */
  function NegativeLimit(): nat {
    ShiftLeft(SIGN_BIT - 1, 252)
  }

  lemma CeilBounds(a: nat)
    requires a > 0 && ByteLength(a) > 3
    ensures var q := Pow256(ByteLength(a) - 3);
            && (CeilScaled(a) - 1) * q < a <= CeilScaled(a) * q && 0x1_0000 * q <= a
            && 0x1_0000 <= CeilScaled(a) <= MANTISSA
  {
    hide Pow256, ByteLength, ShiftRight;
    var len := ByteLength(a);
    var q := Pow256(len - 3);
    ShiftRightBounds(a - 1, len - 3);
    ByteLengthBounds(a);
    Pow256Add(2, len - 3);
    Pow256Add(3, len - 3);
    ThreeBytes();
    MulLess(0x1_0000 - 1, CeilScaled(a), q);
    MulLess(CeilScaled(a) - 1, MANTISSA, q);
  }

  /** Without a carry mantissa and exponent stand for a number near the magnitude. */
  lemma NegativeNear(a: nat)
    requires a > 0 && ByteLength(a) > 3 && CeilScaled(a) != MANTISSA
    ensures var (m, e) := NegativeParts(a); e > 3 && 0x8000 <= m < SIGN_BIT && Near(a, m * Pow256(e - 3))
  {
    hide Pow256, ByteLength, CeilScaled;
    var c, len := CeilScaled(a), ByteLength(a);
    var q := Pow256(len - 3);
    CeilBounds(a);
    if c >= SIGN_BIT {
      Pow256Add(1, len - 3);
      ThreeBytes();
      NearDown(a, c, q);
      Assoc(c / 256, 256, q);
    } else {
      Distribute(c - 1, q);
      assert Near(a, c * q);
    }
  }

  lemma NearDown(a: nat, c: nat, q: nat)
    requires q > 0 && (c - 1) * q < a <= c * q && c >= SIGN_BIT
    ensures Near(a, c / 256 * 256 * q)
  {
    var r := c / 256 * 256;
    MulLess(r, c, q);
    MulLess(c - 255, r, q);
    MulLess(SIGN_BIT - 1, c - 1, q);
    assert (c - 255) * q == c * q - 255 * q && (c - 1) * q == c * q - q;
  }

  lemma NegativeFits(a: nat)
    requires a > 0 && ByteLength(a) > 3 && CeilScaled(a) != MANTISSA
    ensures NegativeParts(a).1 < 256 <==> a <= NegativeLimit()
  {
    hide Pow256, ByteLength, CeilScaled, ShiftLeft, NegativeParts, NegativeLimit;
    var c, len := CeilScaled(a), ByteLength(a);
    var p, q := Pow256(252), Pow256(len - 3);
    CeilBounds(a);
    NegativeExponent(a);
    LimitIs();
    ThreeBytes();
    if len < 255 {
      PowMonotone(len - 3 + 1, 252);
      Pow256Add(1, len - 3);
      WellBelow(a, c, q, p);
    } else if len == 255 {
      AtTheLimit(a, c, p);
    } else {
      PowMonotone(253, len - 3);
      Pow256Add(1, 252);
      WellAbove(a, q, p);
    }
  }

  lemma NegativeExponent(a: nat)
    requires a > 0 && CeilScaled(a) < MANTISSA
    ensures NegativeParts(a).1 == if CeilScaled(a) >= SIGN_BIT then ByteLength(a) + 1 else ByteLength(a)
  {
    hide Pow256, ByteLength, CeilScaled;
  }

  lemma LimitIs()
    ensures NegativeLimit() == (SIGN_BIT - 1) * Pow256(252)
  {
    hide Pow256;
  }

  lemma WellBelow(a: nat, c: nat, q: nat, p: nat)
    requires a <= c * q && c < MANTISSA && 256 * q <= p
    ensures a <= (SIGN_BIT - 1) * p
  {
    Scale(SIGN_BIT - 1, 256 * q, p);
    if q > 0 { MulLess(c, MANTISSA, q); }
  }

  lemma AtTheLimit(a: nat, c: nat, p: nat)
    requires c > 0 && p > 0 && (c - 1) * p < a <= c * p
    ensures c < SIGN_BIT <==> a <= (SIGN_BIT - 1) * p
  {
    if c < SIGN_BIT { MulLess(c, SIGN_BIT - 1, p); } else { MulLess(SIGN_BIT - 1, c - 1, p); }
  }

  lemma WellAbove(a: nat, q: nat, p: nat)
    requires 0x1_0000 * q <= a && 256 * p <= q && p > 0
    ensures a > (SIGN_BIT - 1) * p
  {
  }

  lemma UnpackNegative(m: nat, e: nat)
    requires m < SIGN_BIT
    ensures var c := e * MANTISSA + m + SIGN_BIT; c % SIGN_BIT == m && c / MANTISSA == e && c / SIGN_BIT % 2 == 1
  {
    assert e * MANTISSA + m + SIGN_BIT == (2 * e + 1) * SIGN_BIT + m;
  }

  /** The compact form of a negative number stands for one near it exactly when rounding up does
      not carry and the exponent fits; magnitudes below 2^23 are exact. */
  lemma NegativeRounds(a: nat)
    requires a > 0
    ensures a < SIGN_BIT ==> -CompactToBig(NegativeCompact(a)) == a
    ensures Near(a, -CompactToBig(NegativeCompact(a))) <==> !Carries(a) && a <= NegativeLimit()
  {
    hide Pow256, ByteLength, CeilScaled, CompactToBig, NegativeLimit, NegativeParts, Packed;
    if ByteLength(a) <= 3 {
      NegativeShort(a);
    } else {
      ThreeByteBound(a);
      CarriesIff(a);
      if Carries(a) {
        NegativeCarries(a);
      } else {
        NegativeNear(a);
        NegativeFits(a);
        NegativeValue(a);
      }
    }
  }

  lemma ThreeByteBound(a: nat)
    requires a > 0
    ensures ByteLength(a) > 3 <==> a >= MANTISSA
  {
    hide Pow256, ByteLength;
    ByteLengthBounds(a);
    ThreeBytes();
    var len := ByteLength(a);
    if len > 3 { PowMonotone(3, len - 1); } else { PowMonotone(len, 3); }
  }

  /** Up to three bytes the form differs from that of the positive number by the sign bit. */
  lemma NegativeShort(a: nat)
    requires a > 0 && ByteLength(a) <= 3
    ensures !Carries(a) && a <= NegativeLimit()
    ensures a < SIGN_BIT ==> -CompactToBig(NegativeCompact(a)) == a
    ensures Near(a, -CompactToBig(NegativeCompact(a)))
  {
    hide Pow256, ByteLength, ShiftLeft, ShiftRight, Normal, CompactToBig, Rounded;
    ThreeByteBound(a);
    ScaledRange(a);
    assert NegativeParts(a) == Parts(a);
    var (m, e) := Parts(a);
    PartsNormal(a);
    NormalMantissa(a, m, e);
    SameMagnitude(m, e);
    RoundsDown(a);
    SmallBelow(a);
    RoundedNear(a, CompactToBig(ToCompact(a)));
  }

  lemma NormalMantissa(n: nat, m: nat, e: nat)
    requires Normal(n, m, e)
    ensures m < SIGN_BIT
  {
  }

  lemma RoundedNear(n: nat, r: int)
    requires n > 0 && Rounded(n, r)
    ensures Near(n, r)
  {
  }

  lemma SmallBelow(a: nat)
    requires a < MANTISSA
    ensures a < Limit() && a <= NegativeLimit()
  {
    hide Pow256, ShiftLeft;
    PowAtLeast(252);
    Scale(SIGN_BIT, 256, Pow256(252));
    Scale(SIGN_BIT - 1, 256, Pow256(252));
  }

  lemma SameMagnitude(m: nat, e: nat)
    requires m < SIGN_BIT
    ensures CompactToBig(e % 256 * MANTISSA + m + SIGN_BIT) == -CompactToBig(e % 256 * MANTISSA + m)
  {
    hide ShiftLeft, ShiftRight;
    Unpack(m, e % 256);
    UnpackNegative(m, e % 256);
  }

  /** A carry leaves no mantissa: the form stands for zero. */
  lemma NegativeCarries(a: nat)
    requires a > 0 && Carries(a)
    ensures CompactToBig(NegativeCompact(a)) == 0
  {
    hide Pow256, ByteLength, CeilScaled;
    CarriesIff(a);
    var e := ByteLength(a) % 256 + 1 - ByteLength(a) % 2;
    UnpackNegative(0, e);
    ZeroShifts(e);
  }

  lemma ZeroShifts(e: nat)
    ensures e <= 3 ==> ShiftRight(0, 3 - e) == 0
    ensures e > 3 ==> ShiftLeft(0, e - 3) == 0
  {
    hide Pow256;
    if e <= 3 { assert ShiftRight(0, 0) == ShiftRight(0, 1) == ShiftRight(0, 2) == ShiftRight(0, 3) == 0; }
  }

  lemma NegativeValue(a: nat)
    requires a > 0 && ByteLength(a) > 3 && CeilScaled(a) != MANTISSA
    ensures Near(a, -CompactToBig(NegativeCompact(a))) <==> NegativeParts(a).1 < 256
  {
    hide Pow256, ByteLength, CeilScaled, ShiftLeft, ShiftRight, NegativeParts, Near;
    NegativeNear(a);
    var (m, e) := NegativeParts(a);
    UnpackNegative(m, e % 256);
    if e >= 256 {
      ShiftedBelow(m, e % 256);
      NegativeCut(a, m, e, -CompactToBig(NegativeCompact(a)));
    }
  }

  lemma NegativeCut(a: nat, m: nat, e: nat, r: int)
    requires e >= 256 && Near(a, m * Pow256(e - 3)) && r <= m * Pow256(e % 256)
    ensures !Near(a, r)
  {
    hide Pow256;
    var k := e % 256;
    PowMonotone(k + 1, e - 3);
    Pow256Add(k, 1);
    ThreeBytes();
    Scale(m, Pow256(k) * 256, Pow256(e - 3));
    Assoc(m, Pow256(k), 256);
  }

  /** For instance -(2^40 - 1), whose compact form stands for zero. */
  lemma CarryExample()
    ensures Carries(0xff_ffff_ffff) && CompactToBig(NegativeCompact(0xff_ffff_ffff)) == 0
  {
    hide CompactToBig;
    assert ByteLength(0xff_ffff_ffff) == 5;
    assert Pow256(2) == 0x1_0000;
    NegativeCarries(0xff_ffff_ffff);
  }

  const TWO_256 := 0x1_0000000000000000_0000000000000000_0000000000000000_0000000000000000

  function CalcWork(bits: nat): int {
    var target := CompactToBig(bits);
    if target <= 0 then 0 else TWO_256 / (target + 1)
  }

  /** The work of a positive target is the largest number of hashes below 2^256 over it. */
  lemma WorkBounds(bits: nat)
    ensures var t, w := CompactToBig(bits), CalcWork(bits);
            if t <= 0 then w == 0 else w >= 0 && (t + 1) * w <= TWO_256 < (t + 1) * (w + 1)
  {
    hide CompactToBig;
    if CompactToBig(bits) > 0 { DivBounds(TWO_256, CompactToBig(bits) + 1); }
  }

  /** A higher target never means more work. */
  lemma WorkAntitone(bits1: nat, bits2: nat)
    requires 0 < CompactToBig(bits1) <= CompactToBig(bits2)
    ensures CalcWork(bits1) >= CalcWork(bits2)
  {
    hide CompactToBig;
    var t1, t2 := CompactToBig(bits1), CompactToBig(bits2);
    var w1, w2 := CalcWork(bits1), CalcWork(bits2);
    WorkBounds(bits1);
    WorkBounds(bits2);
    if w1 < w2 {
      MulLess(t1 + 1, t2 + 1, w2);
      MulLess(w1 + 1, w2, t1 + 1);
    }
  }
}
