/** Spend journal entries and unspent-output entries.  A journal entry lists the
    outputs a block spends, last one first, and does not say how many there are. */
module Journal {
  import opened Bytes
  import opened Options
  import opened Vlq
  import S = Script
  import Amount
  import TxOut

  datatype SpentTxOut = SpentTxOut(amount: int, script: Option<bytes>, height: int, isCoinBase: bool)

  function HeaderCode(height: nat, isCoinBase: bool): nat {
    2 * height + if isCoinBase then 1 else 0
  }

  /** A spent output that may be in a journal: a block height, an amount in range and a script. */
  ghost predicate Storable(curve: S.Curve, x: SpentTxOut) {
    && 0 <= x.height <= MAX_INT32 && 0 <= x.amount <= S.MAX_INT && Amount.Fits(x.amount)
    && x.script.Some? && TxOut.Storable(curve, x.script.value)
  }

  /** The header code and, for a non-zero height, a zero reserved byte. */
  function Header(x: SpentTxOut): bytes
    requires x.height >= 0
  {
    Encode(HeaderCode(x.height, x.isCoinBase)) + if x.height > 0 then Encode(0) else []
  }

  function EncodeOne(curve: S.Curve, x: SpentTxOut): bytes
    requires x.height >= 0 && x.amount >= 0 && x.script.Some?
  {
    Header(x) + TxOut.Compress(curve, x.amount, x.script.value)
  }

  method SizeOne(curve: S.Curve, x: SpentTxOut) returns (size: nat)
    requires x.height >= 0 && 0 <= x.amount < U64 && x.script.Some?
    ensures size == |EncodeOne(curve, x)|
  {
    size := SerializeSize(HeaderCode(x.height, x.isCoinBase));
    if x.height > 0 {
      var reserved := SerializeSize(0);
      size := size + reserved;
    }
    var body := TxOut.CompressedSize(curve, x.amount, x.script.value);
    return size + body;
  }

  method PutOne(curve: S.Curve, target: array<byte>, at: nat, x: SpentTxOut) returns (len: nat)
    requires x.height >= 0 && 0 <= x.amount < U64 && x.script.Some?
    requires at + |EncodeOne(curve, x)| <= target.Length
    modifies target
    ensures len == |EncodeOne(curve, x)|
    ensures target[..] == old(target[..at]) + EncodeOne(curve, x) + old(target[at + len..])
  {
    hide Header, TxOut.Compress;
    var offset := PutHeader(target, at, x);
    ghost var once := target[..];
    var more := TxOut.PutCompressed(curve, target, at + offset, x.amount, x.script.value);
    WrittenTwice(old(target[..]), once, target[..], at, Header(x), TxOut.Compress(curve, x.amount, x.script.value));
    return offset + more;
  }

  method PutHeader(target: array<byte>, at: nat, x: SpentTxOut) returns (len: nat)
    requires x.height >= 0 && at + |Header(x)| <= target.Length
    modifies target
    ensures len == |Header(x)|
    ensures target[..] == old(target[..at]) + Header(x) + old(target[at + len..])
  {
    hide Encode, HeaderCode;
    len := Put(target, at, HeaderCode(x.height, x.isCoinBase));
    if x.height > 0 {
      ghost var once := target[..];
      var reserved := Put(target, at + len, 0);
      WrittenTwice(old(target[..]), once, target[..], at, Encode(HeaderCode(x.height, x.isCoinBase)), Encode(0));
      len := len + reserved;
    }
  }

  datatype Read = Read(x: SpentTxOut, n: nat) | Bad(n: nat)

  function DecodeOne(curve: S.Curve, s: bytes): (r: Read)
    ensures r.Read? ==> r.n <= |s|
  {
    if s == [] then Bad(0)
    else
      var (code, offset) := Vlq.Decode(s);
      if offset >= |s| then Bad(offset)
      else
        var height := ToInt32(code / 2);
        var offset' := if height > 0 then offset + Vlq.Decode(s[offset..]).1 else offset;
        if height > 0 && offset' >= |s| then Bad(offset')
        else
          match TxOut.Decode(curve, s[offset'..])
          case Decoded(amount, script, read) =>
            Read(SpentTxOut(S.ToInt(amount), script, height, code % 2 == 1), offset' + read)
          case Malformed(read) => Bad(offset' + read)
          case PastEnd => Bad(offset')
  }

  lemma CodeParts(height: nat, isCoinBase: bool)
    requires height <= MAX_INT32
    ensures var code := HeaderCode(height, isCoinBase);
            code < U64 && ToInt32(code / 2) == height && code % 2 == (if isCoinBase then 1 else 0)
  {
  }

  lemma HeaderRoundTrip(x: SpentTxOut, t: bytes)
    requires 0 <= x.height <= MAX_INT32 && t != []
    ensures var s := Header(x) + t;
            var (code, offset) := Vlq.Decode(s);
            && offset < |s| && code % 2 == (if x.isCoinBase then 1 else 0) && ToInt32(code / 2) == x.height
            && (if x.height > 0 then offset + Vlq.Decode(s[offset..]).1 else offset) == |Header(x)|
            && s[|Header(x)|..] == t
  {
    hide Vlq.Decode, Groups;
    var code := HeaderCode(x.height, x.isCoinBase);
    var reserved: bytes := if x.height > 0 then Encode(0) else [];
    var s := Header(x) + t;
    assert s == Encode(code) + (reserved + t);
    RoundTrip(code, reserved + t);
    if x.height > 0 {
      assert s[|Encode(code)|..] == Encode(0) + t;
      RoundTrip(0, t);
    }
  }

  lemma RoundTripOne(curve: S.Curve, x: SpentTxOut, t: bytes)
    requires Storable(curve, x)
    ensures DecodeOne(curve, EncodeOne(curve, x) + t) == Read(x, |EncodeOne(curve, x)|)
  {
    hide Vlq.Decode, Encode, TxOut.Decode, TxOut.Compress, Header, HeaderCode, S.Curve.Sound;
    var body := TxOut.Compress(curve, x.amount, x.script.value);
    assert EncodeOne(curve, x) + t == Header(x) + (body + t);
    TxOutNotEmpty(curve, x.amount, x.script.value);
    HeaderRoundTrip(x, body + t);
    TxOut.RoundTripTxOut(curve, x.amount, x.script.value, t);
  }

  lemma TxOutNotEmpty(curve: S.Curve, amount: nat, script: bytes)
    ensures TxOut.Compress(curve, amount, script) != []
  {
  }

  ghost predicate AllStorable(curve: S.Curve, xs: seq<SpentTxOut>) {
    forall i | 0 <= i < |xs| :: Storable(curve, xs[i])
  }

  predicate Encodable(xs: seq<SpentTxOut>) {
    forall i | 0 <= i < |xs| :: xs[i].height >= 0 && 0 <= xs[i].amount < U64 && xs[i].script.Some?
  }

  /** The entry of a block: its spent outputs, last one first. */
  function EncodeAll(curve: S.Curve, xs: seq<SpentTxOut>): bytes
    requires Encodable(xs)
  {
    if xs == [] then [] else EncodeOne(curve, xs[|xs| - 1]) + EncodeAll(curve, xs[..|xs| - 1])
  }

  method Serialize(curve: S.Curve, xs: seq<SpentTxOut>) returns (s: bytes)
    requires Encodable(xs)
    ensures s == EncodeAll(curve, xs)
  {
    hide EncodeOne, EncodeAll;
    if |xs| == 0 {
      EncodeNone(curve);
      return [];
    }
    var size := 0;
    EncodeNone(curve);
    for i := 0 to |xs|
      invariant size == |EncodeAll(curve, xs[..i])|
    {
      EncodeLast(curve, xs, i);
      var one := SizeOne(curve, xs[i]);
      size := size + one;
    }
    assert xs[..|xs|] == xs;
    var serialized := new byte[size](_ => 0);
    var offset, i := 0, |xs|;
    while i > 0
      invariant 0 <= i <= |xs| && 0 <= offset
      invariant offset + |EncodeAll(curve, xs[..i])| == serialized.Length == |EncodeAll(curve, xs)|
      invariant serialized[..offset] + EncodeAll(curve, xs[..i]) == EncodeAll(curve, xs)
    {
      EncodeLast(curve, xs, i - 1);
      var len := PutOne(curve, serialized, offset, xs[i - 1]);
      offset, i := offset + len, i - 1;
    }
    s := serialized[..];
    EncodeNone(curve);
  }

  lemma EncodeNone(curve: S.Curve)
    ensures EncodeAll(curve, []) == []
  {
  }

  lemma EncodeLast(curve: S.Curve, xs: seq<SpentTxOut>, i: nat)
    requires Encodable(xs) && i < |xs|
    ensures EncodeAll(curve, xs[..i + 1]) == EncodeOne(curve, xs[i]) + EncodeAll(curve, xs[..i])
  {
    hide EncodeOne;
    assert xs[..i + 1][..i] == xs[..i];
  }

  /** The entries, or the error for bytes that do not decode or for no bytes at all. */
  datatype Entries = Entries(xs: seq<SpentTxOut>) | Corrupt | Mismatched {
    function Then(more: seq<SpentTxOut>): Entries {
      if Entries? then Entries(xs + more) else this
    }
  }

  /** Reads `n` entries, filling the result from its end. */
  function DecodeAll(curve: S.Curve, s: bytes, n: nat): Entries
    decreases n
  {
    if n == 0 then Entries([])
    else
      match DecodeOne(curve, s)
      case Bad(_) => Corrupt
      case Read(x, k) => DecodeAll(curve, s[k..], n - 1).Then([x])
  }

  /** Every list of spent outputs is read back in spend order. */
  lemma {:induction false} RoundTripAll(curve: S.Curve, xs: seq<SpentTxOut>, t: bytes)
    requires AllStorable(curve, xs) && Encodable(xs)
    ensures DecodeAll(curve, EncodeAll(curve, xs) + t, |xs|) == Entries(xs)
  {
    hide Storable, EncodeOne, DecodeOne;
    if xs != [] {
      var init, x := xs[..|xs| - 1], xs[|xs| - 1];
      var rest := EncodeAll(curve, init) + t;
      assert EncodeAll(curve, xs) + t == EncodeOne(curve, x) + rest;
      RoundTripOne(curve, x, rest);
      assert (EncodeOne(curve, x) + rest)[|EncodeOne(curve, x)|..] == rest;
      RoundTripAll(curve, init, t);
      assert xs == init + [x];
    }
  }

  /** The total number of inputs of some transactions. */
  function Inputs(txns: seq<nat>): nat {
    if txns == [] then 0 else Inputs(txns[..|txns| - 1]) + txns[|txns| - 1]
  }

  /** Reads the entry of a block whose transactions have the given numbers of
      inputs, backwards through the transactions and their inputs. */
  method Deserialize(curve: S.Curve, s: bytes, txns: seq<nat>) returns (r: Entries)
    ensures r == if s == [] && Inputs(txns) > 0 then Mismatched else DecodeAll(curve, s, Inputs(txns))
  {
    hide DecodeOne;
    var num := 0;
    for i := 0 to |txns|
      invariant num == Inputs(txns[..i])
    {
      assert txns[..i + 1][..i] == txns[..i];
      num := num + txns[i];
    }
    assert txns[..|txns|] == txns;
    if |s| == 0 {
      return if num != 0 then Mismatched else Entries([]);
    }
    r := ReadBackwards(curve, s, txns, num);
  }

  method ReadBackwards(curve: S.Curve, s: bytes, txns: seq<nat>, num: nat) returns (r: Entries)
    requires num == Inputs(txns)
    ensures r == DecodeAll(curve, s, num)
  {
    hide DecodeOne, DecodeAll, Entries.Then;
    var stxos := new SpentTxOut[num](_ => SpentTxOut(0, None, 0, false));
    var stxoIdx, offset, txIdx := num, 0, |txns|;
    assert stxos[num..] == [] && s[0..] == s && txns[..|txns|] == txns;
    ThenNothing(DecodeAll(curve, s, num));
    while txIdx > 0
      invariant 0 <= txIdx <= |txns| && 0 <= offset <= |s|
      invariant stxoIdx == Inputs(txns[..txIdx]) <= num
      invariant DecodeAll(curve, s, num) == DecodeAll(curve, s[offset..], stxoIdx).Then(stxos[stxoIdx..])
    {
      txIdx := txIdx - 1;
      var txInIdx := txns[txIdx];
      assert txns[..txIdx + 1][..txIdx] == txns[..txIdx];
      while txInIdx > 0
        invariant 0 <= txInIdx && 0 <= offset <= |s|
        invariant stxoIdx == Inputs(txns[..txIdx]) + txInIdx <= num
        invariant DecodeAll(curve, s, num) == DecodeAll(curve, s[offset..], stxoIdx).Then(stxos[stxoIdx..])
      {
        txInIdx, stxoIdx := txInIdx - 1, stxoIdx - 1;
        var one := DecodeOne(curve, s[offset..]);
        DecodeNext(curve, s, offset, stxoIdx, stxos[stxoIdx + 1..]);
        if one.Bad? { return Corrupt; }
        stxos[stxoIdx] := one.x;
        assert stxos[stxoIdx..] == [one.x] + stxos[stxoIdx + 1..];
        offset := offset + one.n;
      }
    }
    assert stxos[0..] == stxos[..];
    DecodeNone(curve, s[offset..], stxos[..]);
    return Entries(stxos[..]);
  }

  lemma ThenNothing(e: Entries)
    ensures e.Then([]) == e
  {
  }

  lemma DecodeNone(curve: S.Curve, s: bytes, more: seq<SpentTxOut>)
    ensures DecodeAll(curve, s, 0).Then(more) == Entries(more)
  {
  }

  /** Reading one more entry from the front puts it before what has been read. */
  lemma DecodeNext(curve: S.Curve, s: bytes, offset: nat, n: nat, more: seq<SpentTxOut>)
    requires offset <= |s|
    ensures match DecodeOne(curve, s[offset..])
            case Bad(_) => DecodeAll(curve, s[offset..], n + 1).Then(more) == Corrupt
            case Read(x, k) =>
              (&& offset + k <= |s|
               && DecodeAll(curve, s[offset..], n + 1).Then(more) == DecodeAll(curve, s[offset + k..], n).Then([x] + more))
  {
    hide DecodeOne;
    var one := DecodeOne(curve, s[offset..]);
    if one.Read? {
      assert s[offset..][one.n..] == s[offset + one.n..];
      ThenThen(DecodeAll(curve, s[offset + one.n..], n), [one.x], more);
    }
  }

  lemma ThenThen(e: Entries, a: seq<SpentTxOut>, b: seq<SpentTxOut>)
    ensures e.Then(a).Then(b) == e.Then(a + b)
  {
    if e.Entries? { assert e.xs + a + b == e.xs + (a + b); }
  }

  lemma EntryNotEmpty(curve: S.Curve, xs: seq<SpentTxOut>)
    requires Encodable(xs) && xs != []
    ensures EncodeAll(curve, xs) != []
  {
    TxOutNotEmpty(curve, xs[|xs| - 1].amount, xs[|xs| - 1].script.value);
  }

  /** Writing a block's journal entry and reading it against transactions with as
      many inputs gives the spent outputs back. */
  method Rewrite(curve: S.Curve, xs: seq<SpentTxOut>, txns: seq<nat>) returns (r: Entries)
    requires AllStorable(curve, xs) && Encodable(xs) && Inputs(txns) == |xs|
    ensures r == Entries(xs)
  {
    hide Storable;
    var s := Serialize(curve, xs);
    RoundTripAll(curve, xs, []);
    assert EncodeAll(curve, xs) + [] == s;
    if xs != [] { EntryNotEmpty(curve, xs); }
    r := Deserialize(curve, s, txns);
  }

  /** An unspent output as stored in the utxo set. */
  datatype UtxoEntry = UtxoEntry(amount: int, script: Option<bytes>, height: int, isCoinBase: bool)

  function EncodeUtxo(curve: S.Curve, e: UtxoEntry): bytes
    requires e.height >= 0 && e.amount >= 0 && e.script.Some?
  {
    Encode(HeaderCode(e.height, e.isCoinBase)) + TxOut.Compress(curve, e.amount, e.script.value)
  }

  function DecodeUtxo(curve: S.Curve, s: bytes): Option<UtxoEntry> {
    var (code, offset) := Vlq.Decode(s);
    if offset >= |s| then None
    else
      match TxOut.Decode(curve, s[offset..])
      case Decoded(amount, script, _) => Some(UtxoEntry(S.ToInt(amount), script, ToInt32(code / 2), code % 2 == 1))
      case _ => None
  }

  lemma RoundTripUtxo(curve: S.Curve, e: UtxoEntry)
    requires Storable(curve, SpentTxOut(e.amount, e.script, e.height, e.isCoinBase))
    ensures DecodeUtxo(curve, EncodeUtxo(curve, e)) == Some(e)
  {
    hide Vlq.Decode, Encode, TxOut.Decode, TxOut.Compress, S.Curve.Sound, Amount.Fits, S.Compress, HeaderCode, ToInt32, TxOut.Restored;
    CodeParts(e.height, e.isCoinBase);
    var code := HeaderCode(e.height, e.isCoinBase);
    var body := TxOut.Compress(curve, e.amount, e.script.value);
    RoundTrip(code, body);
    TxOutNotEmpty(curve, e.amount, e.script.value);
    assert EncodeUtxo(curve, e)[|Encode(code)|..] == body == body + [];
    TxOut.RoundTripTxOut(curve, e.amount, e.script.value, []);
  }
}
