/** What the codecs write, byte by byte: the values and positions that other implementations
    of the formats rely on, and that a round trip alone would not fix. */
module Formats {
  import opened Bytes
  import opened Options
  import ChainTree
  import Store
  import Vlq
  import Amount
  import Script
  import TxOut
  import Journal
  import BestState
  import Difficulty

  /** Numbers of fixed width, low byte first. */
  lemma LowByteFirst(n: nat)
    ensures LittleEndian(n, 2) == [n % 256, n / 0x100 % 256]
    ensures LittleEndian(n, 4) == [n % 256, n / 0x100 % 256, n / 0x1_0000 % 256, n / 0x100_0000 % 256]
    ensures LittleEndian(n, 8) == LittleEndian(n, 4) + LittleEndian(n / 0x1_0000_0000, 4)
  {
    hide LittleEndian;
    Two(n);
    Four(n);
    Split(n);
    Next(n, 7);
    Next(n / 256, 6);
    Next(n / 256 / 256, 5);
    Next(n / 256 / 256 / 256, 4);
    Quarters(n % 256, n / 256 % 256, n / 256 / 256 % 256, n / 256 / 256 / 256 % 256, LittleEndian(n / 0x1_0000_0000, 4));
  }

  lemma Next(n: nat, width: nat)
    ensures LittleEndian(n, width + 1) == [n % 256] + LittleEndian(n / 256, width)
  {
  }

  lemma Quarters(a: byte, b: byte, c: byte, d: byte, rest: bytes)
    ensures [a] + ([b] + ([c] + ([d] + rest))) == [a, b, c, d] + rest
  {
  }

  lemma Two(n: nat)
    ensures LittleEndian(n, 2) == [n % 256, n / 0x100 % 256]
  {
    assert LittleEndian(n, 2) == [n % 256] + LittleEndian(n / 256, 1);
  }

  lemma Four(n: nat)
    ensures LittleEndian(n, 4) == [n % 256, n / 0x100 % 256, n / 0x1_0000 % 256, n / 0x100_0000 % 256]
  {
    Split(n);
    assert LittleEndian(n, 4) == [n % 256] + ([n / 256 % 256] + LittleEndian(n / 256 / 256, 2));
    assert LittleEndian(n / 256 / 256, 2) == [n / 256 / 256 % 256] + LittleEndian(n / 256 / 256 / 256, 1);
  }

  lemma Split(n: nat)
    ensures n / 256 / 256 == n / 0x1_0000 && n / 256 / 256 / 256 == n / 0x100_0000
    ensures n / 256 / 256 / 256 / 256 == n / 0x1_0000_0000
  {
  }

  /** A block index key: four bytes of height, high byte first, and the hash. */
  lemma RowKeyLayout(height: nat, hash: ChainTree.BlockHash)
    ensures Store.KeyOf(height, hash).raw
            == [height / 0x100_0000 % 256, height / 0x1_0000 % 256, height / 0x100 % 256, height % 256] + hash.raw
  {
    Split(height);
    assert BigEndian(height, 4) == BigEndian(height / 256 / 256, 2) + [height / 256 % 256] + [height % 256];
    assert BigEndian(height / 256 / 256, 2) == BigEndian(height / 256 / 256 / 256, 1) + [height / 256 / 256 % 256];
  }

  /** Numbers of variable length, as the format's description lists them. */
  lemma VlqVectors()
    ensures Vlq.Encode(0) == [0x00] && Vlq.Encode(127) == [0x7f] && Vlq.Encode(128) == [0x80, 0x00]
    ensures Vlq.Encode(129) == [0x80, 0x01] && Vlq.Encode(255) == [0x80, 0x7f] && Vlq.Encode(256) == [0x81, 0x00]
    ensures Vlq.Encode(16511) == [0xff, 0x7f] && Vlq.Encode(16512) == [0x80, 0x80, 0x00]
    ensures Vlq.Encode(32895) == [0x80, 0xff, 0x7f] && Vlq.Encode(2113663) == [0xff, 0xff, 0x7f]
    ensures Vlq.Encode(270549119) == [0xff, 0xff, 0xff, 0x7f]
  {
    assert Vlq.Groups(0) == [0x80] && Vlq.Groups(1) == [0x81] && Vlq.Groups(127) == [0xff];
    assert Vlq.Groups(128) == [0x80, 0x80] && Vlq.Groups(255) == [0x80, 0xff] && Vlq.Groups(16511) == [0xff, 0xff];
    assert Vlq.Groups(2113663) == [0xff, 0xff, 0xff];
  }

  /** One byte up to 127, two up to 16511 and three up to 2113663. */
  lemma VlqLengths(n: nat)
    ensures |Vlq.Encode(n)| == 1 <==> n <= 127
    ensures |Vlq.Encode(n)| == 2 <==> 128 <= n <= 16511
    ensures |Vlq.Encode(n)| == 3 <==> 16512 <= n <= 2113663
  {
    if n > 127 {
      GroupsLength(Vlq.Up(n));
    }
  }

  lemma GroupsLength(n: nat)
    ensures |Vlq.Groups(n)| >= 1
    ensures |Vlq.Groups(n)| == 1 <==> n <= 127
    ensures |Vlq.Groups(n)| == 2 <==> 128 <= n <= 16511
  {
    if n > 127 {
      var m := Vlq.Up(n);
      assert Vlq.Groups(n) == Vlq.Groups(m) + [128 + Vlq.Low(n)];
      if m > 127 { assert |Vlq.Groups(Vlq.Up(m))| >= 1 by { GroupsLength(Vlq.Up(m)); } }
    }
  }

  /** The code of an amount with last digit `d` before `e` zeros, and of one with nine or more. */
  lemma AmountCodes(n: nat, d: nat, e: nat)
    requires 1 <= d <= 9 && e < 9
    ensures Amount.Compress(Amount.Scale(10 * n + d, e)) == 1 + 10 * (9 * n + d - 1) + e
    ensures n > 0 ==> Amount.Compress(Amount.Scale(n, 9)) == 1 + 10 * (n - 1) + 9
  {
    hide Amount.Strip, Amount.Scale;
    Amount.StripPow(10 * n + d, e, 0);
    Amount.TenParts(n, d);
    if n > 0 { Amount.StripPow(n, 9, 0); }
  }

  /** Half a coin, whose code is 48. */
  lemma HalfCoin()
    ensures Amount.Compress(50000000) == 48
  {
    AmountCodes(0, 5, 7);
    assert Amount.Scale(5, 7) == 10 * Amount.Scale(5, 6) && Amount.Scale(5, 6) == 10 * Amount.Scale(5, 5);
    assert Amount.Scale(5, 5) == 10 * Amount.Scale(5, 4) && Amount.Scale(5, 4) == 10 * Amount.Scale(5, 3) == 50000;
  }

  /** The powers of ten that the amounts are scaled by. */
  lemma Scales(n: nat)
    ensures Amount.Scale(n, 0) == n && Amount.Scale(n, 1) == 10 * n && Amount.Scale(n, 2) == 100 * n && Amount.Scale(n, 3) == 1000 * n
    ensures forall e: nat :: Amount.Scale(n, e + 1) == 10 * Amount.Scale(n, e)
  {
  }

  /** The recognised script forms, and what they are compressed to: a code and a payload. */
  lemma ScriptForms(curve: Script.Curve, s: bytes)
    ensures Script.IsPubKeyHash(s) <==> |s| == 25 && s[..3] == [0x76, 0xa9, 20] && s[23..] == [0x88, 0xac]
    ensures Script.IsScriptHash(s) <==> |s| == 23 && s[..2] == [0xa9, 20] && s[22..] == [0x87]
    ensures Script.IsCompressedPubKey(curve, s) <==>
              && |s| == 35 && (s[..2] == [33, 2] || s[..2] == [33, 3]) && s[34..] == [0xac]
              && curve.lift(s[2..34], s[1] == 3).Some?
    ensures Script.IsUncompressedPubKey(curve, s) <==>
              |s| == 67 && s[..2] == [65, 4] && s[66..] == [0xac] && curve.isPoint(s[2..34], s[34..66])
  {
  }

  lemma ScriptCodes(curve: Script.Curve, s: bytes)
    ensures |s| == 25 && s[..3] == [0x76, 0xa9, 20] && s[23..] == [0x88, 0xac] ==> Script.Compress(curve, s) == [0] + s[3..23]
    ensures |s| == 23 && s[..2] == [0xa9, 20] && s[22..] == [0x87] ==> Script.Compress(curve, s) == [1] + s[2..22]
    ensures Script.IsCompressedPubKey(curve, s) ==> Script.Compress(curve, s) == s[1..34]
    ensures Script.IsUncompressedPubKey(curve, s) ==>
              Script.Compress(curve, s) == [if s[65] % 2 == 0 then 4 else 5] + s[2..34]
    ensures !(Script.IsPubKeyHash(s) || Script.IsScriptHash(s) || Script.IsCompressedPubKey(curve, s) || Script.IsUncompressedPubKey(curve, s)) ==>
              Script.Compress(curve, s) == Vlq.Encode(|s| + 6) + s
  {
    hide Vlq.Encode;
    ScriptForms(curve, s);
  }

  /** And what each code and payload is decompressed to, whether or not it came from a script. */
  lemma ScriptDecodes(curve: Script.Curve, p: bytes, x: bytes, s: bytes, t: bytes)
    requires |p| == 20 && |x| == 32 && |s| <= 0x7fff_ffff_ffff_ffff
    ensures Script.Decompress(curve, []) == Script.Nil
    ensures Script.Decompress(curve, [0] + p + t) == Script.Script([0x76, 0xa9, 20] + p + [0x88, 0xac])
    ensures Script.Decompress(curve, [1] + p + t) == Script.Script([0xa9, 20] + p + [0x87])
    ensures Script.Decompress(curve, [2] + x + t) == Script.Script([33, 2] + x + [0xac])
    ensures Script.Decompress(curve, [3] + x + t) == Script.Script([33, 3] + x + [0xac])
    ensures forall odd :: Script.Decompress(curve, [if odd then 5 else 4] + x + t)
                          == match curve.lift(x, odd) { case None => Script.Nil case Some(y) => Script.Script([65, 4] + x + y + [0xac]) }
    ensures Script.Decompress(curve, Vlq.Encode(|s| + 6) + s + t) == Script.Script(s)
  {
    hide Vlq.Encode, Vlq.Decode, Script.Decompress;
    Typed(curve, 0, p, t);
    Typed(curve, 1, p, t);
    Typed(curve, 2, x, t);
    Typed(curve, 3, x, t);
    Typed(curve, 4, x, t);
    Typed(curve, 5, x, t);
    Plain(curve, s, t);
    Nothing(curve);
  }

  lemma Nothing(curve: Script.Curve)
    ensures Script.Decompress(curve, []) == Script.Nil
  {
  }

  lemma Typed(curve: Script.Curve, code: byte, body: bytes, t: bytes)
    requires code < 6 && |body| == if code < 2 then 20 else 32
    ensures Script.Decompress(curve, [code] + body + t) == Script.Assemble(curve, code, body)
  {
    hide Vlq.Decode, Script.Decompress, Script.Assemble;
    var c := [code] + body + t;
    Vlq.RoundTrip(code, body + t);
    assert Vlq.Encode(code) == [code] && c == [code] + (body + t);
    assert c[1..1 + |body|] == body;
    Script.DecompressIs(curve, c, code, 1, body);
  }

  lemma Plain(curve: Script.Curve, s: bytes, t: bytes)
    requires |s| <= 0x7fff_ffff_ffff_ffff
    ensures Script.Decompress(curve, Vlq.Encode(|s| + 6) + s + t) == Script.Script(s)
  {
    hide Vlq.Encode, Vlq.Decode, Script.Decompress;
    var n := |s| + 6;
    var c := Vlq.Encode(n) + s + t;
    assert c == Vlq.Encode(n) + (s + t);
    Vlq.RoundTrip(n, s + t);
    var at := |Vlq.Encode(n)|;
    assert c[at..at + |s|] == s;
    assert c != [] by { NotEmptyVlq(n); }
    Script.DecompressIs(curve, c, n, at, s);
    assert [] + s + [] == s;
  }

  lemma NotEmptyVlq(n: nat)
    ensures Vlq.Encode(n) != []
  {
  }

  /** An output is the number for its amount, then its script. */
  lemma TxOutParts(curve: Script.Curve, amount: nat, script: bytes)
    requires amount < U64
    ensures var s := TxOut.Compress(curve, amount, script);
            var (code, read) := Vlq.Decode(s);
            && code == Amount.Compress(amount) % U64 && read <= |s| && s[read..] == Script.Compress(curve, script)
  {
    hide Vlq.Encode, Vlq.Decode, Script.Compress, Amount.Compress;
    var c := Amount.Wrap(Amount.Compress(amount));
    Vlq.RoundTrip(c, Script.Compress(curve, script));
  }

  /** A spent output starts with the number for height and coinbase flag, one zero byte unless the
      height is zero, and the output. */
  lemma JournalParts(curve: Script.Curve, x: Journal.SpentTxOut)
    requires 0 <= x.height <= MAX_INT32 && 0 <= x.amount < U64 && x.script.Some?
    ensures var s := Journal.EncodeOne(curve, x);
            var (code, read) := Vlq.Decode(s);
            && code == 2 * x.height + (if x.isCoinBase then 1 else 0) && read <= |s|
            && s[read..] == (if x.height == 0 then [] else [0]) + TxOut.Compress(curve, x.amount, x.script.value)
  {
    hide Vlq.Groups, Vlq.Decode, TxOut.Compress;
    var code := Journal.HeaderCode(x.height, x.isCoinBase);
    var rest := (if x.height == 0 then [] else [0]) + TxOut.Compress(curve, x.amount, x.script.value);
    assert Journal.EncodeOne(curve, x) == Vlq.Encode(code) + rest;
    Vlq.RoundTrip(code, rest);
  }

  /** The outputs of a block are written last one first. */
  lemma JournalOrder(curve: Script.Curve, xs: seq<Journal.SpentTxOut>, x: Journal.SpentTxOut, y: Journal.SpentTxOut)
    requires Journal.Encodable(xs)
    requires x.height >= 0 && 0 <= x.amount < U64 && x.script.Some? && y.height >= 0 && 0 <= y.amount < U64 && y.script.Some?
    ensures Journal.Encodable(xs + [x, y])
    ensures Journal.EncodeAll(curve, xs + [x, y])
            == Journal.EncodeOne(curve, y) + Journal.EncodeOne(curve, x) + Journal.EncodeAll(curve, xs)
  {
    hide Journal.EncodeOne;
    var all := xs + [x, y];
    assert forall i | 0 <= i < |xs| :: all[i] == xs[i];
    assert all[|xs|] == x && all[|xs| + 1] == y;
    assert all[..|all| - 1] == xs + [x] && (xs + [x])[..|xs|] == xs;
  }

  /** An unspent output has the same start and no zero byte. */
  lemma UtxoParts(curve: Script.Curve, e: Journal.UtxoEntry)
    requires 0 <= e.height <= MAX_INT32 && 0 <= e.amount < U64 && e.script.Some?
    ensures var s := Journal.EncodeUtxo(curve, e);
            var (code, read) := Vlq.Decode(s);
            && code == 2 * e.height + (if e.isCoinBase then 1 else 0) && read <= |s|
            && s[read..] == TxOut.Compress(curve, e.amount, e.script.value)
  {
    hide Vlq.Encode, Vlq.Decode, TxOut.Compress;
    Vlq.RoundTrip(Journal.HeaderCode(e.height, e.isCoinBase), TxOut.Compress(curve, e.amount, e.script.value));
  }

  /** Where the fields of the best state record are. */
  lemma BestStateLayout(r: BestState.Record)
    ensures var s := BestState.Encode(r);
            && |s| == 147 && s[..32] == r.hash && s[32..36] == LittleEndian(r.height, 4) && s[36..44] == LittleEndian(r.totalTxns, 8)
            && s[44..46] == LittleEndian(r.scale, 2) && s[46..48] == LittleEndian(r.reserved, 2) && s[48..50] == LittleEndian(r.votes, 2)
            && s[50..114] == r.signature && s[114..146] == r.pubKey[..32] && s[146] == 0
  {
    hide LittleEndian;
    var s := BestState.Encode(r);
    assert s[..50] == BestState.Head(r);
    BestState.HeadFields(r, s);
  }

  /** A compact target with exponent `e`, sign `negative` and mantissa `m`. */
  lemma CompactMeans(e: nat, negative: bool, m: nat)
    requires m < 0x80_0000
    ensures var n := Difficulty.CompactToBig(e * 0x100_0000 + (if negative then 0x80_0000 else 0) + m);
            var a := if negative then -n else n;
            && a >= 0
            && (e >= 3 ==> a == m * Pow256(e - 3))
            && (e == 2 ==> a == m / 0x100) && (e == 1 ==> a == m / 0x1_0000) && (e == 0 ==> a == 0)
  {
    hide Difficulty.ShiftLeft, Difficulty.ShiftRight, Pow256;
    CompactFields(e, negative, m);
    Shifts(m);
    PowZero();
  }

  lemma CompactFields(e: nat, negative: bool, m: nat)
    requires m < 0x80_0000
    ensures var c := e * 0x100_0000 + (if negative then 0x80_0000 else 0) + m;
            c / 0x80_0000 == 2 * e + (if negative then 1 else 0) && c % 0x80_0000 == m && c / 0x100_0000 == e
  {
    assert e * 0x100_0000 + (if negative then 0x80_0000 else 0) + m == (2 * e + if negative then 1 else 0) * 0x80_0000 + m;
  }

  lemma PowZero()
    ensures Pow256(0) == 1
  {
  }

  lemma Shifts(m: nat)
    requires m < 0x80_0000
    ensures Difficulty.ShiftRight(m, 0) == m
    ensures Difficulty.ShiftRight(m, 1) == m / 0x100 && Difficulty.ShiftRight(m, 2) == m / 0x1_0000 && Difficulty.ShiftRight(m, 3) == 0
  {
    assert Difficulty.ShiftRight(m, 1) == Difficulty.ShiftRight(m / 256, 0);
    assert Difficulty.ShiftRight(m, 2) == Difficulty.ShiftRight(m / 256, 1) == Difficulty.ShiftRight(m / 256 / 256, 0);
    assert Difficulty.ShiftRight(m, 3) == Difficulty.ShiftRight(m / 256, 2) == Difficulty.ShiftRight(m / 256 / 256, 1)
           == Difficulty.ShiftRight(m / 256 / 256 / 256, 0);
  }
}
