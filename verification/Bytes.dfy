/** Bytes, their lexicographic order and fixed-width integers. */
module Bytes {
  type byte = b: int | 0 <= b < 256
  type bytes = seq<byte>

  const U64 := 0x1_0000_0000_0000_0000
  const MAX_INT32 := 0x7fff_ffff

  /** The signed 32-bit number with the low bits of `n`. */
  function ToInt32(n: int): (r: int)
    ensures 0 <= n <= MAX_INT32 ==> r == n
  {
    (n + MAX_INT32 + 1) % (2 * (MAX_INT32 + 1)) - (MAX_INT32 + 1)
  }

  function Zeros(n: nat): (s: bytes)
    ensures |s| == n && forall i | 0 <= i < n :: s[i] == 0
  {
    seq(n, _ => 0)
  }

  /** The order of `bytes.Compare`, which the database cursor follows. */
  predicate Less(a: bytes, b: bytes) {
    if b == [] then false
    else if a == [] then true
    else a[0] < b[0] || (a[0] == b[0] && Less(a[1..], b[1..]))
  }

  lemma {:induction false} LessAsymmetric(a: bytes, b: bytes)
    ensures !(Less(a, b) && Less(b, a)) && (a == b ==> !Less(a, b)) && (a != b ==> Less(a, b) || Less(b, a))
  {
    if a != [] && b != [] {
      LessAsymmetric(a[1..], b[1..]);
      if a != b && a[0] == b[0] {
        assert a == [a[0]] + a[1..] && b == [b[0]] + b[1..];
      }
    }
  }

  /** A common prefix does not matter. */
  lemma {:induction false} LessPrefix(p: bytes, a: bytes, b: bytes)
    ensures Less(p + a, p + b) == Less(a, b)
  {
    if p == [] {
      assert p + a == a && p + b == b;
    } else {
      LessPrefix(p[1..], a, b);
      assert (p + a)[1..] == p[1..] + a && (p + b)[1..] == p[1..] + b;
    }
  }

  /** What lies between two strings with a common prefix has that prefix. */
  lemma {:induction false} Between(p: bytes, a: bytes, k: bytes, b: bytes)
    requires !Less(k, p + a) && !Less(p + b, k)
    ensures p <= k
  {
    if p != [] {
      assert (p + a)[1..] == p[1..] + a && (p + b)[1..] == p[1..] + b;
      assert k != [] && k[0] == p[0];
      Between(p[1..], a, k[1..], b);
      assert k == [k[0]] + k[1..] && p == [p[0]] + p[1..];
    }
  }

  /** The low `width` bytes of `n`, lowest first. */
  function LittleEndian(n: nat, width: nat): (b: bytes)
    ensures |b| == width
  {
    if width == 0 then [] else [n % 256] + LittleEndian(n / 256, width - 1)
  }

  function FromLittleEndian(b: bytes): (n: nat) {
    if b == [] then 0 else b[0] + 256 * FromLittleEndian(b[1..])
  }

  function Pow256(n: nat): (r: nat)
    ensures r >= 1
  {
    if n == 0 then 1 else 256 * Pow256(n - 1)
  }

  lemma {:induction false} LittleEndianRoundTrip(n: nat, width: nat)
    requires n < Pow256(width)
    ensures FromLittleEndian(LittleEndian(n, width)) == n
  {
    if width > 0 {
      LittleEndianRoundTrip(n / 256, width - 1);
      assert LittleEndian(n, width)[1..] == LittleEndian(n / 256, width - 1);
    }
  }

  lemma LowByte(n: nat, x: byte)
    ensures (x + 256 * n) % 256 == x && (x + 256 * n) / 256 == n
  {
  }

  lemma {:induction false} LittleEndianBack(b: bytes)
    ensures LittleEndian(FromLittleEndian(b), |b|) == b
  {
    if b == [] {
    } else {
      LittleEndianBack(b[1..]);
      LowByte(FromLittleEndian(b[1..]), b[0]);
      assert b == [b[0]] + b[1..];
    }
  }

  lemma {:induction false} FromLittleEndianBound(b: bytes)
    ensures FromLittleEndian(b) < Pow256(|b|)
  {
    if b != [] { FromLittleEndianBound(b[1..]); }
  }

  lemma Widths()
    ensures Pow256(2) == 0x1_0000 && Pow256(4) == 0x1_0000_0000 && Pow256(8) == U64
  {
    assert Pow256(4) == 256 * Pow256(3) == 256 * 256 * Pow256(2);
    assert Pow256(6) == 256 * Pow256(5) == 256 * 256 * Pow256(4);
    assert Pow256(8) == 256 * Pow256(7) == 256 * 256 * Pow256(6);
  }

  /** The low `width` bytes of `n`, highest first. */
  function BigEndian(n: nat, width: nat): (b: bytes)
    ensures |b| == width
  {
    if width == 0 then [] else BigEndian(n / 256, width - 1) + [n % 256]
  }

  function FromBigEndian(b: bytes): (n: nat) {
    if b == [] then 0 else 256 * FromBigEndian(b[..|b| - 1]) + b[|b| - 1]
  }

  lemma {:induction false} BigEndianRoundTrip(n: nat, width: nat)
    requires n < Pow256(width)
    ensures FromBigEndian(BigEndian(n, width)) == n
  {
    if width > 0 {
      BigEndianRoundTrip(n / 256, width - 1);
      assert BigEndian(n, width)[..width - 1] == BigEndian(n / 256, width - 1);
    }
  }

  /** Written high byte first, smaller numbers sort first, whatever follows them. */
  lemma {:induction false} BigEndianOrder(m: nat, n: nat, width: nat, a: bytes, b: bytes)
    requires m < n < Pow256(width)
    ensures Less(BigEndian(m, width) + a, BigEndian(n, width) + b)
  {
    hide Less;
    var p, q := BigEndian(m / 256, width - 1), BigEndian(n / 256, width - 1);
    assert BigEndian(m, width) + a == p + ([m % 256] + a) && BigEndian(n, width) + b == q + ([n % 256] + b);
    if m / 256 < n / 256 {
      BigEndianOrder(m / 256, n / 256, width - 1, [m % 256] + a, [n % 256] + b);
    } else {
      LessPrefix(p, [m % 256] + a, [n % 256] + b);
      LessHead(m % 256, a, n % 256, b);
    }
  }

  lemma LessHead(x: byte, a: bytes, y: byte, b: bytes)
    requires x < y
    ensures Less([x] + a, [y] + b)
  {
  }

  function Reversed(s: bytes): (r: bytes)
    ensures |r| == |s| && forall i | 0 <= i < |s| :: r[i] == s[|s| - 1 - i]
  {
    if s == [] then [] else Reversed(s[1..]) + [s[0]]
  }

  lemma ReversedPush(s: bytes, x: byte)
    ensures Reversed(s + [x]) == [x] + Reversed(s)
  {
  }

  /** Reverses `a[lo..hi]` in place. */
  method ReverseRange(a: array<byte>, lo: nat, hi: nat)
    requires lo <= hi <= a.Length
    modifies a
    ensures a[..] == old(a[..lo]) + Reversed(old(a[lo..hi])) + old(a[hi..])
  {
    hide Reversed;
    var i, j := lo, hi - 1;
    while i < j
      invariant lo <= i && j < hi && i + j == lo + hi - 1 && i <= j + 1
      invariant forall k | 0 <= k < a.Length && (k < lo || hi <= k || i <= k <= j) :: a[k] == old(a[k])
      invariant forall k | lo <= k < i || j < k < hi :: a[k] == old(a[lo + hi - 1 - k])
    {
      a[i], a[j] := a[j], a[i];
      i, j := i + 1, j - 1;
    }
  }

  /** Two strings written one after the other are their concatenation, written once. */
  lemma WrittenTwice(before: bytes, once: bytes, twice: bytes, at: nat, x: bytes, y: bytes)
    requires at + |x| + |y| <= |before| && once == before[..at] + x + before[at + |x|..]
    requires twice == once[..at + |x|] + y + once[at + |x| + |y|..]
    ensures twice == before[..at] + (x + y) + before[at + |x| + |y|..]
  {
    assert once[..at + |x|] == before[..at] + x;
    assert once[at + |x| + |y|..] == before[at + |x| + |y|..];
  }

  /** Copies `src` to `target` at `at`, where there is room for it. */
  method CopyInto(target: array<byte>, at: nat, src: bytes) returns (next: nat)
    requires at + |src| <= target.Length
    modifies target
    ensures next == at + |src|
    ensures target[..next] == old(target[..at]) + src
    ensures forall i | next <= i < target.Length :: target[i] == old(target[i])
  {
    forall i | 0 <= i < |src| { target[at + i] := src[i]; }
    return at + |src|;
  }
}
