/** Amount compression: a decimal exponent up to 9, the last non-zero digit and the rest. */
module Amount {
  import opened Bytes

  /** `n` times ten to the power `e`. */
  function Scale(n: nat, e: nat): (r: nat)
    ensures r >= n && (e > 0 ==> r >= 10 * n)
  {
    if e == 0 then n else 10 * Scale(n, e - 1)
  }

  /** Divides by ten while that is exact, nine times at most. */
  function Strip(a: nat, e: nat): (r: (nat, nat))
    requires e <= 9
    decreases 9 - e
  {
    if a % 10 == 0 && e < 9 then Strip(a / 10, e + 1) else (a, e)
  }

  /** The code for mantissa `n` and exponent `e`. */
  function Pack(n: nat, e: nat): (c: nat)
    requires n > 0 && (e < 9 ==> n % 10 != 0)
  {
    if e < 9 then 1 + 10 * (9 * (n / 10) + n % 10 - 1) + e else 10 + 10 * (n - 1)
  }

  /** The mantissa behind a non-zero code. */
  function Mantissa(c: nat): (n: nat)
    requires c > 0
    ensures n > 0 && ((c - 1) % 10 < 9 ==> n % 10 != 0)
  {
    var x := (c - 1) / 10;
    if (c - 1) % 10 < 9 then x / 9 * 10 + x % 9 + 1 else x + 1
  }

  lemma PackMantissa(n: nat, e: nat)
    requires n > 0 && e <= 9 && (e < 9 ==> n % 10 != 0)
    ensures Pack(n, e) > 0 && (Pack(n, e) - 1) % 10 == e && Mantissa(Pack(n, e)) == n
  {
    if e < 9 {
      var x := 9 * (n / 10) + n % 10 - 1;
      TenParts(x, e);
      NineParts(n / 10, n % 10 - 1);
    } else {
      TenParts(n - 1, 9);
    }
  }

  lemma TenParts(q: nat, r: nat)
    requires r < 10
    ensures (10 * q + r) / 10 == q && (10 * q + r) % 10 == r
  {
  }

  lemma NineParts(q: nat, r: nat)
    requires r < 9
    ensures (9 * q + r) / 9 == q && (9 * q + r) % 9 == r
  {
  }

  lemma MantissaPack(c: nat)
    requires c > 0
    ensures Pack(Mantissa(c), (c - 1) % 10) == c
  {
    var x := (c - 1) / 10;
    if (c - 1) % 10 < 9 { TenParts(x / 9, x % 9 + 1); }
  }

  function Compress(a: nat): nat {
    if a == 0 then 0
    else
      StripSpec(a, 0);
      var (n, e) := Strip(a, 0);
      Pack(n, e)
  }

  function Decompress(c: nat): nat {
    if c == 0 then 0 else Scale(Mantissa(c), (c - 1) % 10)
  }

  lemma {:induction false} StripSpec(a: nat, e: nat)
    requires e <= 9 && a > 0
    ensures var (n, f) := Strip(a, e);
            n > 0 && e <= f <= 9 && (f < 9 ==> n % 10 != 0) && a == Scale(n, f - e)
    decreases 9 - e
  {
    if a % 10 == 0 && e < 9 {
      StripSpec(a / 10, e + 1);
    }
  }

  /** Stripping finds mantissa and exponent again. */
  lemma {:induction false} StripPow(n: nat, k: nat, e: nat)
    requires n > 0 && e + k <= 9 && (e + k < 9 ==> n % 10 != 0)
    ensures Strip(Scale(n, k), e) == (n, e + k)
    decreases k
  {
    if k > 0 {
      StripPow(n, k - 1, e + 1);
    }
  }

  lemma DecompressCompress(a: nat)
    ensures Decompress(Compress(a)) == a
  {
    if a > 0 {
      StripSpec(a, 0);
      var (n, e) := Strip(a, 0);
      PackMantissa(n, e);
    }
  }

  lemma CompressDecompress(c: nat)
    ensures Compress(Decompress(c)) == c
  {
    if c > 0 {
      var n, e := Mantissa(c), (c - 1) % 10;
      StripPow(n, e, 0);
      MantissaPack(c);
    }
  }

  /** The code is at most nine times the amount. */
  lemma CompressBound(a: nat)
    ensures Compress(a) <= 9 * a
  {
    if a > 0 {
      StripSpec(a, 0);
    }
  }

  /** Unsigned 64-bit arithmetic. */
  function Wrap(n: int): nat {
    n % U64
  }

  lemma WrapSmall(n: nat)
    requires n < U64
    ensures Wrap(n) == n
  {
  }

  lemma WrapMul(k: nat, n: int)
    ensures Wrap(k * Wrap(n)) == Wrap(k * n)
  {
    var q := n / U64;
    assert n == U64 * q + Wrap(n);
    assert k * n == U64 * (k * q) + k * Wrap(n);
    WrapShift(k * Wrap(n), k * q);
  }

  lemma WrapAdd(n: int, d: int)
    ensures Wrap(Wrap(n) + d) == Wrap(n + d)
  {
    WrapShift(Wrap(n) + d, n / U64);
  }

  lemma WrapShift(n: int, q: int)
    ensures Wrap(U64 * q + n) == Wrap(n)
  {
    var r := U64 * q + n;
    assert r == U64 * (q + n / U64) + n % U64;
    ModUnique(r, q + n / U64, n % U64);
  }

  lemma ModUnique(n: int, q: int, r: int)
    requires n == U64 * q + r && 0 <= r < U64
    ensures n % U64 == r
  {
  }

  lemma WrapSteps(n: nat, d: nat, e: nat)
    ensures Wrap(Wrap(Wrap(10 * Wrap(Wrap(Wrap(n) + d) - 1)) + 1) + e) == Wrap(10 * (n + d - 1) + 1 + e)
  {
    hide Wrap;
    WrapAdd(n, d);
    WrapAdd(n + d, -1);
    WrapMul(10, n + d - 1);
    WrapAdd(10 * (n + d - 1), 1);
    WrapAdd(10 * (n + d - 1) + 1, e);
  }

  method CompressTxOutAmount(amount: nat) returns (c: nat)
    requires amount < U64
    ensures c == Wrap(Compress(amount))
  {
    hide Wrap;
    if amount == 0 { return Wrap(0); }
    var a, exponent := amount, 0;
    while a % 10 == 0 && exponent < 9
      invariant 0 < a && 0 <= exponent <= 9 && Strip(a, exponent) == Strip(amount, 0)
      decreases 9 - exponent
    {
      a, exponent := a / 10, exponent + 1;
    }
    if exponent < 9 {
      var lastDigit := a % 10;
      a := a / 10;
      WrapSteps(9 * a, lastDigit, exponent);
      return Wrap(Wrap(Wrap(10 * Wrap(Wrap(Wrap(9 * a) + lastDigit) - 1)) + 1) + exponent);
    }
    WrapMul(10, a - 1);
    WrapAdd(10 * (a - 1), 10);
    return Wrap(Wrap(10 * Wrap(a - 1)) + 10);
  }

  method DecompressTxOutAmount(c: nat) returns (n: nat)
    requires c < U64
    ensures n == Wrap(Decompress(c))
  {
    hide Wrap;
    if c == 0 { return Wrap(0); }
    var amount := c - 1;
    var exponent := amount % 10;
    amount := amount / 10;
    if exponent < 9 {
      var lastDigit := amount % 9 + 1;
      amount := amount / 9;
      WrapAdd(amount * 10, lastDigit);
      n := Wrap(Wrap(amount * 10) + lastDigit);
    } else {
      n := Wrap(amount + 1);
    }
    ghost var m, k := Mantissa(c), 0;
    while exponent > 0
      invariant 0 <= exponent && k + exponent == (c - 1) % 10 && n == Wrap(Scale(m, k))
    {
      WrapMul(10, Scale(m, k));
      n, exponent, k := Wrap(10 * n), exponent - 1, k + 1;
    }
  }

  /** An amount that does not end in zero has the code `9 * a + a % 10 - 9`. */
  lemma CodeOfOdd(a: nat)
    requires a % 10 != 0
    ensures Compress(a) == 9 * a + a % 10 - 9
  {
    assert Strip(a, 0) == (a, 0);
  }

  /** Whether the code of a 64-bit amount fits 64 bits. */
  predicate Fits(a: nat) {
    a % 10 == 0 || 9 * a + a % 10 - 9 < U64
  }

  lemma CodeFits(a: nat)
    requires a < U64
    ensures Compress(a) < U64 <==> Fits(a)
  {
    if a % 10 != 0 {
      CodeOfOdd(a);
    } else if a > 0 {
      StripSpec(a, 0);
    }
  }

  /** How far the mantissa falls when the code overflows `k` times, up to a borrow. */
  function Gap(k: nat): nat {
    var b := (k * U64 + 4 * k % 10) / 10;
    b + b / 9
  }

  /** The amount `a` has a code that overflows `k` times. */
  predicate Overflows(a: nat, k: nat) {
    a % 10 != 0 && k * U64 <= 9 * a + a % 10 - 9 < (k + 1) * U64
  }

  lemma TenDivides(k: nat)
    ensures 10 * ((k * U64 + 4 * k % 10) / 10) == k * U64 + 4 * k % 10
  {
    assert k * U64 + 4 * k % 10 == 10 * (k * (U64 / 10) + k - 4 * k / 10);
  }

  lemma NinthOfDifference(x: nat, b: nat)
    requires b <= x
    ensures (x - b) / 9 in {x / 9 - b / 9, x / 9 - b / 9 - 1}
  {
  }

  lemma WrappedMantissa(a: nat, k: nat) returns (gap: nat)
    requires Overflows(a, k) && 9 * a + a % 10 - 9 > k * U64
    ensures var w := 9 * a + a % 10 - 9 - k * U64;
            (w - 1) % 10 == 4 * k % 10 && (4 * k % 10 < 9 ==> Mantissa(w) == a - gap && gap in {Gap(k), Gap(k) + 1})
  {
    TenDivides(k);
    var x, b := 9 * (a / 10) + a % 10 - 1, (k * U64 + 4 * k % 10) / 10;
    var w := 9 * a + a % 10 - 9 - k * U64;
    assert w - 1 == 10 * (x - b) + 4 * k % 10;
    TenParts(x - b, 4 * k % 10);
    NineParts(a / 10, a % 10 - 1);
    NinthOfDifference(x, b);
    gap := b + x / 9 - (x - b) / 9;
  }

  /** The one 64-bit solution of `10^e * (a - gap) == a` modulo 2^64. */
  function Root(e: nat, gap: nat): nat {
    if e == 2 then 1267049087891161121100 * gap % U64
    else if e == 4 then 134582456263337512790000 * gap % U64
    else if e == 6 then 1672254362768354751000000 * gap % U64
    else 30015306325040307100000000 * gap % U64
  }

  lemma ScaleTwice(n: nat, e: nat)
    ensures Scale(n, e + 2) == 100 * Scale(n, e)
  {
    assert Scale(n, e + 2) == 10 * Scale(n, e + 1);
  }

  lemma Root2(a: nat, gap: nat, t: int)
    requires a < U64 && 100 * (a - gap) == a + t * U64
    ensures a == Root(2, gap)
  {
    assert 1267049087891161121100 * gap == U64 * (68 * a - 12670490878911611211 * t) + a;
    ModUnique(1267049087891161121100 * gap, 68 * a - 12670490878911611211 * t, a);
  }

  lemma Root4(a: nat, gap: nat, t: int)
    requires a < U64 && 10000 * (a - gap) == a + t * U64
    ensures a == Root(4, gap)
  {
    assert 134582456263337512790000 * gap == U64 * (7295 * a - 13458245626333751279 * t) + a;
    ModUnique(134582456263337512790000 * gap, 7295 * a - 13458245626333751279 * t, a);
  }

  lemma Root6(a: nat, gap: nat, t: int)
    requires a < U64 && 1000000 * (a - gap) == a + t * U64
    ensures a == Root(6, gap)
  {
    assert 1672254362768354751000000 * gap == U64 * (90653 * a - 1672254362768354751 * t) + a;
    ModUnique(1672254362768354751000000 * gap, 90653 * a - 1672254362768354751 * t, a);
  }

  lemma Root8(a: nat, gap: nat, t: int)
    requires a < U64 && 100000000 * (a - gap) == a + t * U64
    ensures a == Root(8, gap)
  {
    assert 30015306325040307100000000 * gap == U64 * (1627133 * a - 300153063250403071 * t) + a;
    ModUnique(30015306325040307100000000 * gap, 1627133 * a - 300153063250403071 * t, a);
  }

  lemma OnlyRoot(a: nat, m: nat, e: nat, gap: nat)
    requires a < U64 && e in {2, 4, 6, 8} && m == a - gap && Wrap(Scale(m, e)) == a
    ensures a == Root(e, gap)
  {
    hide Root, Scale;
    var t := Scale(m, e) / U64;
    ScaleTwice(m, 0);
    ScaleTwice(m, 2);
    ScaleTwice(m, 4);
    ScaleTwice(m, 6);
    ScaleZero(m);
    if e == 2 {
      Root2(a, gap, t);
    } else if e == 4 {
      Root4(a, gap, t);
    } else if e == 6 {
      Root6(a, gap, t);
    } else {
      Root8(a, gap, t);
    }
  }

  lemma ScaleZero(n: nat)
    ensures Scale(n, 0) == n
  {
  }

  /** None of these solutions has a code that overflows as often as it must. */
  lemma RootsDoNotOverflow(k: nat)
    requires 1 <= k <= 8 && k != 5
    ensures !Overflows(Root(4 * k % 10, Gap(k)), k) && !Overflows(Root(4 * k % 10, Gap(k) + 1), k)
  {
    hide Overflows, Root, Gap;
    if k == 1 { Roots1(); }
    if k == 2 { Roots2(); }
    if k == 3 { Roots3(); }
    if k == 4 { Roots4(); }
    if k == 6 { Roots6(); }
    if k == 7 { Roots7(); }
    if k == 8 { Roots8(); }
  }

  lemma Roots1()
    ensures !Overflows(Root(4, Gap(1)), 1) && !Overflows(Root(4, Gap(1) + 1), 1)
  {
    assert Gap(1) == 2049638230412172402;
    ModUnique(134582456263337512790000 * 2049638230412172402, 14953606251481945867176, 15288550632769423584);
    ModUnique(134582456263337512790000 * (2049638230412172402 + 1), 14953606251481945874472, 10300052185393623248);
  }

  lemma Roots2()
    ensures !Overflows(Root(8, Gap(2)), 2) && !Overflows(Root(8, Gap(2) + 1), 2)
  {
    assert Gap(2) == 4099276460824344804;
    ModUnique(30015306325040307100000000 * 4099276460824344804, 6670068072231179356278725, 14480868974329830400);
    ModUnique(30015306325040307100000000 * (4099276460824344804 + 1), 6670068072231179357905858, 14781022037580233472);
  }

  lemma Roots3()
    ensures !Overflows(Root(2, Gap(3)), 3) && !Overflows(Root(2, Gap(3) + 1), 3)
  {
    assert Gap(3) == 6148914691236517205;
    ModUnique(1267049087891161121100 * 6148914691236517205, 422349695963720373677, 1925417731599313468);
    ModUnique(1267049087891161121100 * (6148914691236517205 + 1), 422349695963720373745, 14595908610510924680);
  }

  lemma Roots4()
    ensures !Overflows(Root(6, Gap(4)), 4) && !Overflows(Root(6, Gap(4) + 1), 4)
  {
    assert Gap(4) == 8198552921648689607;
    ModUnique(1672254362768354751000000 * 8198552921648689607, 743224161230379889323260, 14161661572577611840);
    ModUnique(1672254362768354751000000 * (8198552921648689607 + 1), 743224161230379889413913, 15833915935345966592);
  }

  lemma Roots6()
    ensures !Overflows(Root(4, Gap(6)), 6) && !Overflows(Root(4, Gap(6) + 1), 6)
  {
    assert Gap(6) == 12297829382473034411;
    ModUnique(134582456263337512790000 * 12297829382473034411, 89721637508891675195765, 4486081875444583760);
    ModUnique(134582456263337512790000 * (12297829382473034411 + 1), 89721637508891675203060, 17944327501778335040);
  }

  lemma Roots7()
    ensures !Overflows(Root(8, Gap(7)), 7) && !Overflows(Root(8, Gap(7) + 1), 7)
  {
    assert Gap(7) == 14347467612885206813;
    ModUnique(30015306325040307100000000 * 14347467612885206813, 23345238252809127745348407, 4266028162630124288);
    ModUnique(30015306325040307100000000 * (14347467612885206813 + 1), 23345238252809127746975540, 4566181225880527360);
  }

  lemma Roots8()
    ensures !Overflows(Root(2, Gap(8)), 8) && !Overflows(Root(2, Gap(8) + 1), 8)
  {
    assert Gap(8) == 16397105843297379214;
    ModUnique(1267049087891161121100 * 16397105843297379214, 1126265855903254329851, 7432526512302726184);
    ModUnique(1267049087891161121100 * (16397105843297379214 + 1), 1126265855903254329920, 1656273317504785780);
  }

  /** What is left of a code that overflows `k` times stands for another amount. */
  lemma AnotherAmount(a: nat, k: nat, w: nat)
    requires a < U64 && 1 <= k <= 8 && Overflows(a, k) && w == 9 * a + a % 10 - 9 - k * U64 > 0
    ensures Wrap(Decompress(w)) != a
  {
    hide Root, Gap, Wrap, Overflows, Mantissa, Scale;
    var gap := WrappedMantissa(a, k);
    if Wrap(Decompress(w)) == a {
      if k == 5 {
        ScaleZero(a - gap);
        WrapSmall(a - gap);
        GapPositive();
      } else {
        OnlyRoot(a, a - gap, 4 * k % 10, gap);
        RootsDoNotOverflow(k);
      }
      assert false;
    }
  }

  lemma GapPositive()
    ensures Gap(5) > 0
  {
  }

  /** An amount whose code overflows is lost. */
  lemma OverflowLoses(a: nat)
    requires a < U64 && !Fits(a)
    ensures Wrap(Decompress(Wrap(Compress(a)))) != a
  {
    hide Compress, Wrap;
    CodeOfOdd(a);
    var c := Compress(a);
    var k := c / U64;
    WrapIs(c, k);
    if c - k * U64 > 0 { AnotherAmount(a, k, c - k * U64); }
  }

  lemma WrapIs(n: nat, k: nat)
    requires k == n / U64
    ensures Wrap(n) == n - k * U64 && Wrap(0) == 0
  {
  }

  /** The machine arithmetic gives a 64-bit amount back exactly when its code fits,
      which a caller can tell from the last digit and the size of the amount. */
  lemma MachineRoundTrip(amount: nat)
    requires amount < U64
    ensures Wrap(Decompress(Wrap(Compress(amount)))) == amount <==> Fits(amount)
    ensures Fits(amount) ==> Wrap(Compress(amount)) == Compress(amount)
  {
    hide Compress, Decompress, Wrap;
    CodeFits(amount);
    if Fits(amount) {
      DecompressCompress(amount);
      WrapSmall(Compress(amount));
      WrapSmall(amount);
    } else {
      OverflowLoses(amount);
    }
  }

  /** In particular no step overflows on an amount up to a ninth of the 64-bit range. */
  lemma NinthFits(amount: nat)
    requires 9 * amount < U64
    ensures Wrap(Compress(amount)) == Compress(amount)
    ensures Wrap(Decompress(Wrap(Compress(amount)))) == amount
  {
    hide Compress, Decompress, Wrap;
    MachineRoundTrip(amount);
  }

  /** The other way round, for every code whose amount fits. */
  lemma MachineRoundTripBack(c: nat)
    requires c < U64 && Decompress(c) < U64
    ensures Wrap(Compress(Wrap(Decompress(c)))) == c
  {
    hide Compress, Decompress, Wrap;
    CompressDecompress(c);
    WrapSmall(Decompress(c));
    WrapSmall(c);
  }

  /** The first amount that is lost, and a larger one that is not. */
  lemma FirstLost()
    ensures !Fits(2049638230412172403) && Fits(2049638230412172402) && Fits(10000000000000000000)
    ensures forall a: nat | a < 2049638230412172403 :: Fits(a)
    ensures Wrap(Decompress(Wrap(Compress(2049638230412172403)))) != 2049638230412172403
  {
    hide Compress, Decompress, Wrap;
    MachineRoundTrip(2049638230412172403);
  }
}
