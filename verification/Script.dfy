/** Script compression: standard scripts become a type code and their payload,
    all others a length code, kept clear of the type codes, and themselves. */
module Script {
  import opened Bytes
  import opened Options
  import opened Vlq

  const OP_DATA_20 := 0x14
  const OP_DATA_33 := 0x21
  const OP_DATA_65 := 0x41
  const OP_DUP := 0x76
  const OP_EQUAL := 0x87
  const OP_EQUALVERIFY := 0x88
  const OP_HASH160 := 0xa9
  const OP_CHECKSIG := 0xac

  const PAY_TO_PUB_KEY_HASH := 0
  const PAY_TO_SCRIPT_HASH := 1
  const NUM_SPECIAL_SCRIPTS := 6
  const MAX_INT := 0x7fff_ffff_ffff_ffff

  /** The curve, as public key parsing sees it: which coordinate pairs are points,
      and the point with a given abscissa and parity of the ordinate. */
  datatype Curve = Curve(isPoint: (bytes, bytes) -> bool, lift: (bytes, bool) -> Option<bytes>) {
    /** Lifting the abscissa of a point with the parity of its ordinate gives that ordinate. */
    ghost predicate Sound() {
      forall x: bytes, y: bytes | |x| == 32 && |y| == 32 && isPoint(x, y) :: lift(x, Odd(y)) == Some(y)
    }
  }

  predicate Odd(y: bytes)
    requires |y| > 0
  {
    y[|y| - 1] % 2 == 1
  }

  predicate IsPubKeyHash(s: bytes) {
    |s| == 25 && s[0] == OP_DUP && s[1] == OP_HASH160 && s[2] == OP_DATA_20 && s[23] == OP_EQUALVERIFY && s[24] == OP_CHECKSIG
  }

  predicate IsScriptHash(s: bytes) {
    |s| == 23 && s[0] == OP_HASH160 && s[1] == OP_DATA_20 && s[22] == OP_EQUAL
  }

  predicate IsCompressedPubKey(curve: Curve, s: bytes) {
    && |s| == 35 && s[0] == OP_DATA_33 && s[34] == OP_CHECKSIG && (s[1] == 2 || s[1] == 3)
    && curve.lift(s[2..34], s[1] == 3).Some?
  }

  predicate IsUncompressedPubKey(curve: Curve, s: bytes) {
    && |s| == 67 && s[0] == OP_DATA_65 && s[66] == OP_CHECKSIG && s[1] == 4
    && curve.isPoint(s[2..34], s[34..66])
  }

  function Compress(curve: Curve, s: bytes): bytes {
    if IsPubKeyHash(s) then [PAY_TO_PUB_KEY_HASH] + s[3..23]
    else if IsScriptHash(s) then [PAY_TO_SCRIPT_HASH] + s[2..22]
    else if IsCompressedPubKey(curve, s) then [s[1]] + s[2..34]
    else if IsUncompressedPubKey(curve, s) then [4 + s[65] % 2] + s[2..34]
    else Encode(|s| + NUM_SPECIAL_SCRIPTS) + s
  }

  method CompressedSize(curve: Curve, s: bytes) returns (size: nat)
    ensures size == |Compress(curve, s)|
  {
    if IsPubKeyHash(s) { return 21; }
    if IsScriptHash(s) { return 21; }
    if IsCompressedPubKey(curve, s) || IsUncompressedPubKey(curve, s) { return 33; }
    size := SerializeSize(|s| + NUM_SPECIAL_SCRIPTS);
    return size + |s|;
  }

  /** `int(n)` for a 64-bit unsigned `n`. */
  function ToInt(n: nat): int {
    if n <= MAX_INT then n else n - U64
  }

  /** How many bytes the compressed script at the head of `s` occupies. */
  function SizeOfCompressed(s: bytes): int {
    var (n, read) := Decode(s);
    if read == 0 then 0
    else if n <= 1 then 21
    else if n < NUM_SPECIAL_SCRIPTS then 33
    else ToInt((n - NUM_SPECIAL_SCRIPTS + read) % U64)
  }

  /** A script, the nil script, or a read past the end of the given bytes. */
  datatype Decompressed = Script(s: bytes) | Nil | PastEnd

  function Slice(s: bytes, at: nat, len: int): Option<bytes> {
    if 0 <= len && at + len <= |s| then Some(s[at..at + len]) else None
  }

  function Wrapped(head: bytes, body: Option<bytes>, tail: bytes): Decompressed {
    if body.None? then PastEnd else Script(head + body.value + tail)
  }

  function Decompress(curve: Curve, s: bytes): Decompressed {
    if s == [] then Nil
    else
      var (n, read) := Decode(s);
      if n == PAY_TO_PUB_KEY_HASH then
        Wrapped([OP_DUP, OP_HASH160, OP_DATA_20], Slice(s, read, 20), [OP_EQUALVERIFY, OP_CHECKSIG])
      else if n == PAY_TO_SCRIPT_HASH then
        Wrapped([OP_HASH160, OP_DATA_20], Slice(s, read, 20), [OP_EQUAL])
      else if n <= 3 then
        Wrapped([OP_DATA_33, n], Slice(s, read, 32), [OP_CHECKSIG])
      else if n < NUM_SPECIAL_SCRIPTS then
        var x := Slice(s, 1, 32);
        if x.None? then PastEnd
        else
          var y := curve.lift(x.value, n == 5);
          if y.None? then Nil else Script([OP_DATA_65, 4] + x.value + y.value + [OP_CHECKSIG])
      else
        Wrapped([], Slice(s, read, ToInt(n - NUM_SPECIAL_SCRIPTS)), [])
  }

  /** The type codes 0 to 5 stand for the recognised forms, and for nothing else. */
  lemma CodeTellsForm(curve: Curve, s: bytes, t: bytes)
    requires |s| + NUM_SPECIAL_SCRIPTS < U64
    ensures var n := Decode(Compress(curve, s) + t).0;
            && (n == 0 <==> IsPubKeyHash(s))
            && (n == 1 <==> IsScriptHash(s))
            && (n == 2 || n == 3 <==> IsCompressedPubKey(curve, s))
            && (n == 4 || n == 5 <==> IsUncompressedPubKey(curve, s))
            && (n >= NUM_SPECIAL_SCRIPTS ==> n == |s| + NUM_SPECIAL_SCRIPTS)
  {
    HeadCode(curve, s, t);
  }

  /** The code at the head of a compressed script. */
  function Code(curve: Curve, s: bytes): nat {
    if IsPubKeyHash(s) then 0
    else if IsScriptHash(s) then 1
    else if IsCompressedPubKey(curve, s) then s[1]
    else if IsUncompressedPubKey(curve, s) then 4 + s[65] % 2
    else |s| + NUM_SPECIAL_SCRIPTS
  }

  lemma HeadCode(curve: Curve, s: bytes, t: bytes)
    requires |s| + NUM_SPECIAL_SCRIPTS < U64
    ensures Decode(Compress(curve, s) + t) == (Code(curve, s), |Encode(Code(curve, s))|)
    ensures Encode(Code(curve, s)) <= Compress(curve, s)
  {
    hide Decode, Groups;
    var c := Code(curve, s);
    var body := Compress(curve, s)[|Encode(c)|..];
    assert Compress(curve, s) == Encode(c) + body;
    assert Compress(curve, s) + t == Encode(c) + (body + t);
    RoundTrip(c, body + t);
  }

  lemma NotEmpty(curve: Curve, s: bytes)
    ensures |Compress(curve, s)| > 0
  {
  }

  /** A compressed script tells its own length. */
  lemma SizeIsExact(curve: Curve, s: bytes, t: bytes)
    requires |Compress(curve, s)| <= MAX_INT - NUM_SPECIAL_SCRIPTS
    ensures SizeOfCompressed(Compress(curve, s) + t) == |Compress(curve, s)|
  {
    hide Decode, Groups;
    HeadCode(curve, s, t);
  }

  /** Decompression undoes compression, for every script and whatever follows it. */
  lemma RoundTripScript(curve: Curve, s: bytes, t: bytes)
    requires curve.Sound() && |Compress(curve, s)| <= MAX_INT - NUM_SPECIAL_SCRIPTS
    ensures Decompress(curve, Compress(curve, s) + t) == Script(s)
  {
    hide Decode, Encode, Compress, Decompress, Curve.Sound, Body, Code;
    BodyFits(curve, s);
    HeadCode(curve, s, t);
    BodyAfterCode(curve, s, t);
    NotEmpty(curve, s);
    var n := Code(curve, s);
    DecompressIs(curve, Compress(curve, s) + t, n, |Encode(n)|, Body(curve, s));
    AssembleIs(curve, s);
  }

  /** What decompression makes of a code and what follows it. */
  function Assemble(curve: Curve, n: nat, body: bytes): Decompressed {
    if n == PAY_TO_PUB_KEY_HASH then Script([OP_DUP, OP_HASH160, OP_DATA_20] + body + [OP_EQUALVERIFY, OP_CHECKSIG])
    else if n == PAY_TO_SCRIPT_HASH then Script([OP_HASH160, OP_DATA_20] + body + [OP_EQUAL])
    else if n <= 3 then Script([OP_DATA_33, n] + body + [OP_CHECKSIG])
    else if n < NUM_SPECIAL_SCRIPTS then
      var y := curve.lift(body, n == 5);
      if y.None? then Nil else Script([OP_DATA_65, 4] + body + y.value + [OP_CHECKSIG])
    else Script([] + body + [])
  }

  /** The length of what follows a code. */
  function BodyLength(n: nat): int {
    if n <= 1 then 20 else if n < NUM_SPECIAL_SCRIPTS then 32 else ToInt(n - NUM_SPECIAL_SCRIPTS)
  }

  lemma DecompressIs(curve: Curve, c: bytes, n: nat, at: nat, body: bytes)
    requires c != [] && Decode(c) == (n, at) && at + |body| <= |c| && c[at..at + |body|] == body
    requires |body| == BodyLength(n) && (n < NUM_SPECIAL_SCRIPTS ==> at == 1)
    ensures Decompress(curve, c) == Assemble(curve, n, body)
  {
    hide Decode;
  }

  lemma BodyFits(curve: Curve, s: bytes)
    requires |Compress(curve, s)| <= MAX_INT - NUM_SPECIAL_SCRIPTS
    ensures |Body(curve, s)| == BodyLength(Code(curve, s)) && |s| + NUM_SPECIAL_SCRIPTS < U64
  {
    hide Encode;
  }

  lemma AssembleIs(curve: Curve, s: bytes)
    requires curve.Sound()
    ensures Assemble(curve, Code(curve, s), Body(curve, s)) == Script(s)
  {
    hide Curve.Sound;
    Rebuilt(curve, s);
    if IsUncompressedPubKey(curve, s) { LiftPoint(curve, s[2..34], s[34..66]); }
  }

  /** A recognised script is its body between fixed bytes. */
  lemma Rebuilt(curve: Curve, s: bytes)
    ensures IsPubKeyHash(s) ==> s == [OP_DUP, OP_HASH160, OP_DATA_20] + s[3..23] + [OP_EQUALVERIFY, OP_CHECKSIG]
    ensures IsScriptHash(s) ==> s == [OP_HASH160, OP_DATA_20] + s[2..22] + [OP_EQUAL]
    ensures IsCompressedPubKey(curve, s) ==> s == [OP_DATA_33, s[1]] + s[2..34] + [OP_CHECKSIG]
    ensures IsUncompressedPubKey(curve, s) ==> s == [OP_DATA_65, 4] + s[2..34] + s[34..66] + [OP_CHECKSIG]
  {
  }

  /** What a compressed script holds besides its code. */
  function Body(curve: Curve, s: bytes): bytes {
    if IsPubKeyHash(s) then s[3..23]
    else if IsScriptHash(s) then s[2..22]
    else if IsCompressedPubKey(curve, s) || IsUncompressedPubKey(curve, s) then s[2..34]
    else s
  }

  lemma BodyAfterCode(curve: Curve, s: bytes, t: bytes)
    ensures var c, at := Compress(curve, s) + t, |Encode(Code(curve, s))|;
            && at + |Body(curve, s)| <= |c| && c[at..at + |Body(curve, s)|] == Body(curve, s)
            && (Code(curve, s) < NUM_SPECIAL_SCRIPTS ==> at == 1)
  {
    var c, at := Compress(curve, s) + t, |Encode(Code(curve, s))|;
    assert Compress(curve, s) == Encode(Code(curve, s)) + Body(curve, s);
    assert c[at..at + |Body(curve, s)|] == Body(curve, s);
  }

  lemma LiftPoint(curve: Curve, x: bytes, y: bytes)
    requires curve.Sound() && |x| == 32 && |y| == 32 && curve.isPoint(x, y)
    ensures curve.lift(x, y[31] % 2 == 1) == Some(y)
  {
    assert Odd(y) == (y[31] % 2 == 1);
  }

  /** Writes the compressed script into `target` at `at`. */
  method PutCompressed(curve: Curve, target: array<byte>, at: nat, s: bytes) returns (len: nat)
    requires at + |Compress(curve, s)| <= target.Length
    modifies target
    ensures len == |Compress(curve, s)|
    ensures target[..] == old(target[..at]) + Compress(curve, s) + old(target[at + len..])
  {
    if IsPubKeyHash(s) {
      len := PutTyped(target, at, PAY_TO_PUB_KEY_HASH, s[3..23]);
    } else if IsScriptHash(s) {
      len := PutTyped(target, at, PAY_TO_SCRIPT_HASH, s[2..22]);
    } else if IsCompressedPubKey(curve, s) {
      len := PutTyped(target, at, s[1], s[2..34]);
    } else if IsUncompressedPubKey(curve, s) {
      len := PutTyped(target, at, 4 + s[65] % 2, s[2..34]);
    } else {
      len := PutPlain(target, at, s);
    }
  }

  method PutTyped(target: array<byte>, at: nat, code: byte, payload: bytes) returns (len: nat)
    requires at + 1 + |payload| <= target.Length
    modifies target
    ensures len == 1 + |payload|
    ensures target[..] == old(target[..at]) + ([code] + payload) + old(target[at + len..])
  {
    target[at] := code;
    var next := CopyInto(target, at + 1, payload);
    return next - at;
  }

  method PutPlain(target: array<byte>, at: nat, s: bytes) returns (len: nat)
    requires at + |Encode(|s| + NUM_SPECIAL_SCRIPTS)| + |s| <= target.Length
    modifies target
    ensures len == |Encode(|s| + NUM_SPECIAL_SCRIPTS)| + |s|
    ensures target[..] == old(target[..at]) + (Encode(|s| + NUM_SPECIAL_SCRIPTS) + s) + old(target[at + len..])
  {
    hide Encode;
    var size := Put(target, at, |s| + NUM_SPECIAL_SCRIPTS);
    var next := CopyInto(target, at + size, s);
    return next - at;
  }
}
