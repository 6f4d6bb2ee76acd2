/** Compressed transaction outputs: a compressed amount and a compressed script. */
module TxOut {
  import opened Bytes
  import opened Options
  import opened Vlq
  import Amount
  import S = Script

  function Compress(curve: S.Curve, amount: nat, script: bytes): bytes {
    Encode(Amount.Wrap(Amount.Compress(amount))) + S.Compress(curve, script)
  }

  method CompressedSize(curve: S.Curve, amount: nat, script: bytes) returns (size: nat)
    requires amount < U64
    ensures size == |Compress(curve, amount, script)|
  {
    var c := Amount.CompressTxOutAmount(amount);
    var a := SerializeSize(c);
    var b := S.CompressedSize(curve, script);
    return a + b;
  }

  method PutCompressed(curve: S.Curve, target: array<byte>, at: nat, amount: nat, script: bytes) returns (len: nat)
    requires amount < U64 && at + |Compress(curve, amount, script)| <= target.Length
    modifies target
    ensures len == |Compress(curve, amount, script)|
    ensures target[..] == old(target[..at]) + Compress(curve, amount, script) + old(target[at + len..])
  {
    hide Encode, S.Compress, Amount.Compress, Amount.Wrap;
    var c := Amount.CompressTxOutAmount(amount);
    var offset := Put(target, at, c);
    ghost var once := target[..];
    var more := S.PutCompressed(curve, target, at + offset, script);
    WrittenTwice(old(target[..]), once, target[..], at, Encode(c), S.Compress(curve, script));
    return offset + more;
  }

  /** The nil script is `None`. */
  datatype Decoded = Decoded(amount: nat, script: Option<bytes>, read: nat) | Malformed(read: nat) | PastEnd

  function Decode(curve: S.Curve, s: bytes): (r: Decoded)
    ensures r.Decoded? ==> r.read <= |s|
  {
    var (c, read) := Vlq.Decode(s);
    if read >= |s| then Malformed(read)
    else
      var size := S.SizeOfCompressed(s[read..]);
      if |s| - read < size then Malformed(read)
      else if size < 0 then PastEnd
      else
        match S.Decompress(curve, s[read..read + size])
        case Script(script) => Decoded(Amount.Wrap(Amount.Decompress(c)), Some(script), read + size)
        case Nil => Decoded(Amount.Wrap(Amount.Decompress(c)), None, read + size)
        case PastEnd => PastEnd
  }

  /** The script is short enough for its length to be written. */
  ghost predicate Storable(curve: S.Curve, script: bytes) {
    curve.Sound() && |S.Compress(curve, script)| <= S.MAX_INT - S.NUM_SPECIAL_SCRIPTS
  }

  /** What the machine arithmetic makes of an amount. */
  function Restored(amount: nat): nat {
    Amount.Wrap(Amount.Decompress(Amount.Wrap(Amount.Compress(amount))))
  }

  /** Every script comes back whole, whatever follows it, and with the exact length;
      the amount comes back exactly when its code fits. */
  lemma RoundTripTxOut(curve: S.Curve, amount: nat, script: bytes, t: bytes)
    requires amount < U64 && Storable(curve, script)
    ensures Decode(curve, Compress(curve, amount, script) + t)
            == Decoded(Restored(amount), Some(script), |Compress(curve, amount, script)|)
    ensures Restored(amount) == amount <==> Amount.Fits(amount)
  {
    hide Encode, Vlq.Decode, S.Compress, S.Decompress, S.SizeOfCompressed, Amount.Compress, Amount.Decompress, S.Curve.Sound;
    var c, body := Amount.Wrap(Amount.Compress(amount)), S.Compress(curve, script);
    var s := Compress(curve, amount, script) + t;
    assert s == Encode(c) + (body + t);
    Amount.MachineRoundTrip(amount);
    RoundTrip(c, body + t);
    assert s[|Encode(c)|..] == body + t;
    S.SizeIsExact(curve, script, t);
    S.NotEmpty(curve, script);
    assert s[|Encode(c)|..|Encode(c)| + |body|] == body;
    S.RoundTripScript(curve, script, []);
    assert body + [] == body;
  }
}
