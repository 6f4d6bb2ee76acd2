/** Variable-length quantities: most significant group first, seven bits a byte,
    the high bit set on every byte but the last, and one subtracted whenever a
    group is shifted out, so that no two byte strings stand for one number. */
module Vlq {
  import opened Bytes

  /** The low seven bits, and what remains when they are shifted out. */
  function Low(n: nat): (r: byte)
    ensures r < 128
  {
    n % 128
  }

  function Up(n: nat): (r: nat)
    requires n > 127
    ensures r < n && n == (r + 1) * 128 + Low(n)
  {
    n / 128 - 1
  }

  lemma UpLow(a: nat, d: nat)
    requires d < 128
    ensures Up((a + 1) * 128 + d) == a && Low((a + 1) * 128 + d) == d
  {
  }

  /** The bytes of all groups but the last. */
  function Groups(n: nat): bytes {
    if n <= 127 then [128 + n] else Groups(Up(n)) + [128 + Low(n)]
  }

  function Encode(n: nat): bytes {
    if n <= 127 then [n] else Groups(Up(n)) + [Low(n)]
  }

  /** `n << 7` on 64 bits. */
  function Shift(n: nat): (r: nat)
    ensures n * 128 < U64 ==> r == n * 128
  {
    n * 128 % U64
  }

  /** Reading with the machine's 64-bit wrap-around, starting from accumulator `acc`. */
  function DecodeFrom(acc: nat, s: bytes): (r: (nat, nat))
    ensures r.1 <= |s|
    decreases |s|
  {
    if s == [] then (acc, 0)
    else
      var n := Shift(acc) + Low(s[0]);
      if s[0] < 128 then (n, 1)
      else
        var rest := DecodeFrom((n + 1) % U64, s[1..]);
        (rest.0, rest.1 + 1)
  }

  function Decode(s: bytes): (r: (nat, nat)) {
    DecodeFrom(0, s)
  }

  method SerializeSize(n: nat) returns (size: nat)
    ensures size == |Encode(n)|
  {
    size := 1;
    var m := n;
    while m > 0x7f
      invariant m <= 127 ==> size == |Encode(n)|
      invariant m > 127 ==> size + |Groups(Up(m))| == |Encode(n)|
      decreases m
    {
      m := Up(m);
      size := size + 1;
    }
  }

  lemma SmallLow(d: nat)
    requires d < 128
    ensures Low(d) == d && Low(128 + d) == d
  {
  }

  lemma LowIsMod(n: nat)
    ensures Low(n) == n % 128
  {
  }

  /** Reading the groups of `m` leaves `m + 1` in the accumulator. */
  lemma {:induction false} DecodeGroups(m: nat, t: bytes)
    requires m + 1 < U64
    ensures DecodeFrom(0, Groups(m) + t) == (DecodeFrom(m + 1, t).0, |Groups(m)| + DecodeFrom(m + 1, t).1)
    decreases m
  {
    hide Up, Low, Shift;
    if m <= 127 {
      assert (Groups(m) + t)[1..] == t;
      SmallLow(m);
    } else {
      var t' := [128 + Low(m)] + t;
      DecodeGroups(Up(m), t');
      assert Groups(m) + t == Groups(Up(m)) + t';
      assert t'[1..] == t;
      SmallLow(Low(m));
    }
  }

  /** Every 64-bit number decodes back, whatever follows it. */
  lemma RoundTrip(n: nat, t: bytes)
    requires n < U64
    ensures Decode(Encode(n) + t) == (n, |Encode(n)|)
  {
    hide Up, Low, Shift;
    if n > 127 {
      var t' := [Low(n)] + t;
      DecodeGroups(Up(n), t');
      assert Encode(n) + t == Groups(Up(n)) + t';
      SmallLow(Low(n));
    } else {
      SmallLow(n);
    }
  }

  /** No encoding is a prefix of another. */
  lemma PrefixFree(m: nat, n: nat, t: bytes)
    requires m < U64 && n < U64 && Encode(m) <= Encode(n) + t
    ensures m == n
  {
    RoundTrip(n, t);
    RoundTrip(m, (Encode(n) + t)[|Encode(m)|..]);
    assert Encode(m) + (Encode(n) + t)[|Encode(m)|..] == Encode(n) + t;
  }

  /** A complete string: continuation bytes, then a final one. */
  predicate Complete(s: bytes) {
    s != [] && s[|s| - 1] < 128 && forall i | 0 <= i < |s| - 1 :: s[i] >= 128
  }

  /** The number a complete string stands for, without wrap-around. */
  function Value(s: bytes): nat
    requires forall i | 0 <= i < |s| - 1 :: s[i] >= 128
  {
    if s == [] then 0
    else if |s| == 1 then Low(s[0])
    else (Value(s[..|s| - 1]) + 1) * 128 + Low(s[|s| - 1])
  }

  lemma {:induction false} GroupsOfValue(s: bytes)
    requires s != [] && forall i | 0 <= i < |s| :: s[i] >= 128
    ensures Groups(Value(s)) == s
  {
    hide Up, Low;
    var last := s[|s| - 1];
    SmallLow(last % 128);
    assert Low(last) == last % 128 by { LowIsMod(last); }
    if |s| > 1 {
      GroupsOfValue(s[..|s| - 1]);
      UpLow(Value(s[..|s| - 1]), Low(last));
      assert s == s[..|s| - 1] + [last];
    }
  }

  /** Every complete string is the encoding of its value. */
  lemma EncodeOfValue(s: bytes)
    requires Complete(s)
    ensures Encode(Value(s)) == s
  {
    hide Up, Low;
    var last := s[|s| - 1];
    SmallLow(last % 128);
    assert Low(last) == last % 128 by { LowIsMod(last); }
    if |s| > 1 {
      GroupsOfValue(s[..|s| - 1]);
      UpLow(Value(s[..|s| - 1]), Low(last));
      assert s == s[..|s| - 1] + [last];
    }
  }

  lemma {:induction false} EncodeComplete(n: nat)
    ensures Complete(Encode(n))
  {
    if n > 127 { GroupsContinue(Up(n)); }
  }

  lemma {:induction false} GroupsContinue(n: nat)
    ensures forall i | 0 <= i < |Groups(n)| :: Groups(n)[i] >= 128
  {
    if n > 127 { GroupsContinue(Up(n)); }
  }

  /** One group more, on 64 bits. */
  lemma ShiftWraps(a: nat, d: nat)
    requires d < 128
    ensures Shift(a % U64) + d == (a * 128 + d) % U64
  {
    var r, q := a % U64, a / U64;
    var s, k := r * 128 % U64, r * 128 / U64;
    HighBits(r);
    assert a * 128 + d == (128 * q + k) * U64 + (s + d);
    Remainder(128 * q + k, s + d);
  }

  lemma HighBits(r: nat)
    ensures r * 128 % U64 <= U64 - 128
  {
    var k := r * 128 / U64;
    assert r * 128 % U64 == 128 * (r - k * 0x200_0000_0000_0000);
  }

  lemma Remainder(q: nat, r: nat)
    requires r < U64
    ensures (q * U64 + r) % U64 == r
  {
  }

  lemma {:induction false} DecodeContinued(p: bytes, t: bytes)
    requires p != [] && forall i | 0 <= i < |p| :: p[i] >= 128
    ensures DecodeFrom(0, p + t) == (DecodeFrom((Value(p) + 1) % U64, t).0, |p| + DecodeFrom((Value(p) + 1) % U64, t).1)
    decreases |p|
  {
    hide Low, Shift;
    var last, p' := p[|p| - 1], p[..|p| - 1];
    var t' := [last] + t;
    assert t'[1..] == t && p + t == p' + t';
    if p' == [] {
      ShiftWraps(0, Low(last));
      NextWraps(0, Low(last));
    } else {
      DecodeContinued(p', t');
      ShiftWraps(Value(p') + 1, Low(last));
      NextWraps(Value(p') + 1, Low(last));
    }
  }

  lemma NextWraps(a: nat, d: nat)
    requires d < 128
    ensures ((a * 128 + d) % U64 + 1) % U64 == (a * 128 + d + 1) % U64
  {
  }

  /** Any complete string is read to its end and no further, and gives its value modulo 2^64. */
  lemma DecodeWraps(s: bytes, t: bytes)
    requires Complete(s)
    ensures Decode(s + t) == (Value(s) % U64, |s|)
  {
    hide Low, Shift, DecodeFrom;
    var last, p := s[|s| - 1], s[..|s| - 1];
    var t' := [last] + t;
    assert s + t == p + t';
    if p == [] {
      assert p + t' == t';
      DecodeLast(0, last, t);
    } else {
      DecodeContinued(p, t');
      DecodeLast(Value(p) + 1, last, t);
    }
  }

  lemma DecodeLast(a: nat, last: byte, t: bytes)
    requires last < 128
    ensures DecodeFrom(a % U64, [last] + t) == ((a * 128 + Low(last)) % U64, 1)
  {
    hide Low, Shift;
    ShiftWraps(a, Low(last));
  }

  /** Encoding is a bijection between the 64-bit numbers and the complete strings
      whose value fits: each such string decodes to the one number that encodes to it. */
  lemma Bijection(s: bytes, n: nat)
    requires Complete(s) && Value(s) < U64 && n < U64
    ensures Decode(s) == (Value(s), |s|)
    ensures Encode(n) == s <==> n == Decode(s).0
  {
    EncodeOfValue(s);
    RoundTrip(Value(s), []);
    RoundTrip(n, []);
    assert Encode(n) + [] == Encode(n) && s + [] == s;
  }

  /** Writes the encoding of `n` into `target` at `at`: least significant group
      first, then reversed in place. */
  method Put(target: array<byte>, at: nat, n: nat) returns (len: nat)
    requires at + |Encode(n)| <= target.Length
    modifies target
    ensures len == |Encode(n)|
    ensures target[..] == old(target[..at]) + Encode(n) + old(target[at + len..])
  {
    hide Encode, Reversed;
    var offset := PutReversed(target, at, n);
    ReverseRange(target, at, at + offset + 1);
    return offset + 1;
  }

  method PutReversed(target: array<byte>, at: nat, n: nat) returns (offset: nat)
    requires at + |Encode(n)| <= target.Length
    modifies target
    ensures offset + 1 == |Encode(n)|
    ensures Encode(n) == Reversed(target[at..at + offset + 1])
    ensures target[..at] == old(target[..at]) && target[at + offset + 1..] == old(target[at + offset + 1..])
  {
    hide Encode, Groups, Reversed, Rest, Low, Up;
    offset := 0;
    var m := n;
    ghost var done: bytes := [];
    RestStarts(n);
    while true
      invariant |done| == offset && Encode(n) == Rest(m, offset) + Reversed(done)
      invariant at + |Encode(n)| <= target.Length && |Rest(m, offset)| >= 1
      invariant target[..at + offset] == old(target[..at]) + done
      invariant forall j | at + offset <= j < target.Length :: target[j] == old(target[j])
      decreases m
    {
      var x: byte := Low(m) + if offset == 0 then 0 else 128;
      RestStep(m, offset);
      ReversedPush(done, x);
      ghost var before := target[..];
      target[at + offset] := x;
      assert target[..] == before[at + offset := x];
      assert target[..at + offset + 1] == before[..at + offset] + [x];
      done := done + [x];
      if m <= 127 {
        assert target[at..at + offset + 1] == done;
        break;
      }
      m, offset := Up(m), offset + 1;
    }
  }

  /** What is still to be written once `offset` groups have been. */
  function Rest(m: nat, offset: nat): bytes {
    if offset == 0 then Encode(m) else Groups(m)
  }

  lemma RestStarts(n: nat)
    ensures Rest(n, 0) == Encode(n) && |Encode(n)| >= 1 && Reversed([]) == []
  {
  }

  lemma RestStep(m: nat, offset: nat)
    ensures var x: byte := Low(m) + if offset == 0 then 0 else 128;
            Rest(m, offset) == if m <= 127 then [x] else Rest(Up(m), offset + 1) + [x]
    ensures m > 127 ==> |Rest(Up(m), offset + 1)| >= 1
  {
  }

  method Deserialize(s: bytes) returns (n: nat, size: nat)
    ensures (n, size) == Decode(s)
  {
    n, size := 0, 0;
    while size < |s|
      invariant size <= |s|
      invariant Decode(s) == (DecodeFrom(n, s[size..]).0, size + DecodeFrom(n, s[size..]).1)
    {
      var val := s[size];
      size := size + 1;
      n := Shift(n) + Low(val);
      if val < 128 { return; }
      n := (n + 1) % U64;
      assert s[size - 1..][1..] == s[size..];
    }
  }
}
