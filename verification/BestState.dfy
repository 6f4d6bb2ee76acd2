/** The stored best chain state and its fixed-width form. */
module BestState {
  import opened Bytes

  type U16 = n: nat | n < 0x1_0000
  type U32 = n: nat | n < 0x1_0000_0000
  type Uint64 = n: nat | n < U64
  type Hash32 = b: bytes | |b| == 32 witness Zeros(32)
  type Key33 = b: bytes | |b| == 33 witness Zeros(33)
  type Sig64 = b: bytes | |b| == 64 witness Zeros(64)

  const SERIALIZED_LEN := 147

  datatype Record = Record(hash: Hash32, height: U32, totalTxns: Uint64, scale: U16, reserved: U16, votes: U16,
                           signature: Sig64, pubKey: Key33)
  datatype Result = Ok(value: Record) | Corrupt

  /** The bytes from the start of the record up to each field. */
  function Head(r: Record): (b: bytes)
    ensures |b| == 50
  {
    r.hash + LittleEndian(r.height, 4) + LittleEndian(r.totalTxns, 8)
    + LittleEndian(r.scale, 2) + LittleEndian(r.reserved, 2) + LittleEndian(r.votes, 2)
  }

  /** The whole record.  Only 32 of the 33 bytes of the public key are copied. */
  function Encode(r: Record): (b: bytes)
    ensures |b| == SERIALIZED_LEN
  {
    Head(r) + r.signature + r.pubKey[..32] + [0]
  }

  method PutHead(data: array<byte>, r: Record) returns (offset: nat)
    requires data.Length == SERIALIZED_LEN
    modifies data
    ensures offset == 50 && data[..offset] == Head(r)
    ensures forall i | offset <= i < SERIALIZED_LEN :: data[i] == old(data[i])
  {
    hide LittleEndian;
    offset := CopyInto(data, 0, r.hash);
    offset := CopyInto(data, offset, LittleEndian(r.height, 4));
    offset := CopyInto(data, offset, LittleEndian(r.totalTxns, 8));
    offset := CopyInto(data, offset, LittleEndian(r.scale, 2));
    offset := CopyInto(data, offset, LittleEndian(r.reserved, 2));
    offset := CopyInto(data, offset, LittleEndian(r.votes, 2));
  }

  method Serialize(r: Record) returns (data: array<byte>)
    ensures fresh(data) && data[..] == Encode(r)
  {
    hide Head;
    data := new byte[SERIALIZED_LEN](_ => 0);
    var offset := PutHead(data, r);
    offset := CopyInto(data, offset, r.signature);
    offset := CopyInto(data, offset, r.pubKey[..32]);
    assert data[offset..] == [0];
    assert data[..] == data[..offset] + data[offset..];
  }

  /** Reads a record and ignores what follows it. */
  function Decode(data: bytes): (r: Result)
    ensures r.Corrupt? <==> |data| < SERIALIZED_LEN
  {
    if |data| < SERIALIZED_LEN then Corrupt
    else
      Bounds(data, 32, 4);
      Bounds(data, 36, 8);
      Bounds(data, 44, 2);
      Bounds(data, 46, 2);
      Bounds(data, 48, 2);
      Ok(Record(data[..32], FromLittleEndian(data[32..36]), FromLittleEndian(data[36..44]),
                FromLittleEndian(data[44..46]), FromLittleEndian(data[46..48]), FromLittleEndian(data[48..50]),
                data[50..114], data[114..147]))
  }

  lemma Bounds(data: bytes, at: nat, width: nat)
    requires at + width <= |data| && width in {2, 4, 8}
    ensures FromLittleEndian(data[at..at + width]) < if width == 2 then 0x1_0000 else if width == 4 then 0x1_0000_0000 else U64
  {
    hide FromLittleEndian, Pow256;
    FromLittleEndianBound(data[at..at + width]);
    Widths();
  }

  /** Everything comes back but the last byte of the public key. */
  lemma DecodeEncode(r: Record, rest: bytes)
    ensures Decode(Encode(r) + rest) == Ok(r.(pubKey := r.pubKey[..32] + [0]))
  {
    hide LittleEndian, FromLittleEndian, Pow256;
    var data := Encode(r) + rest;
    HeadFields(r, data);
    assert data[50..114] == r.signature;
    assert data[114..147] == r.pubKey[..32] + [0];
    Widths();
    LittleEndianRoundTrip(r.height, 4);
    LittleEndianRoundTrip(r.totalTxns, 8);
    LittleEndianRoundTrip(r.scale, 2);
    LittleEndianRoundTrip(r.reserved, 2);
    LittleEndianRoundTrip(r.votes, 2);
  }

  lemma HeadFields(r: Record, data: bytes)
    requires |data| >= 50 && data[..50] == Head(r)
    ensures data[..32] == r.hash && data[32..36] == LittleEndian(r.height, 4)
    ensures data[36..44] == LittleEndian(r.totalTxns, 8) && data[44..46] == LittleEndian(r.scale, 2)
    ensures data[46..48] == LittleEndian(r.reserved, 2) && data[48..50] == LittleEndian(r.votes, 2)
  {
    hide LittleEndian;
    var head := Head(r);
    assert data[..32] == head[..32] == r.hash;
    assert data[32..36] == head[32..36] == LittleEndian(r.height, 4);
    assert data[36..44] == head[36..44] == LittleEndian(r.totalTxns, 8);
    assert data[44..46] == head[44..46] == LittleEndian(r.scale, 2);
    assert data[46..48] == head[46..48] == LittleEndian(r.reserved, 2);
    assert data[48..50] == head[48..50] == LittleEndian(r.votes, 2);
  }

  /** And the other way round: what was read is written back as it was, but for the byte left out. */
  lemma EncodeDecode(data: bytes)
    requires |data| >= SERIALIZED_LEN
    ensures Encode(Decode(data).value) == data[..SERIALIZED_LEN - 1] + [0]
    ensures Encode(Decode(data).value) == data[..SERIALIZED_LEN] <==> data[SERIALIZED_LEN - 1] == 0
  {
    hide LittleEndian, FromLittleEndian, Pow256;
    var r := Decode(data).value;
    LittleEndianBack(data[32..36]);
    LittleEndianBack(data[36..44]);
    LittleEndianBack(data[44..46]);
    LittleEndianBack(data[46..48]);
    LittleEndianBack(data[48..50]);
    assert Head(r) == data[..50];
    assert Encode(r) == data[..SERIALIZED_LEN - 1] + [0];
    assert Encode(r)[SERIALIZED_LEN - 1] == 0;
    assert data[..SERIALIZED_LEN] == data[..SERIALIZED_LEN - 1] + [data[SERIALIZED_LEN - 1]];
  }

  /** So a record survives exactly when that byte is zero. */
  lemma SurvivesIff(r: Record, rest: bytes)
    ensures Decode(Encode(r) + rest) == Ok(r) <==> r.pubKey[32] == 0
  {
    hide Encode, Decode;
    DecodeEncode(r, rest);
    var kept := r.pubKey[..32] + [0];
    assert kept[32] == 0;
    if r.pubKey[32] == 0 { assert kept == r.pubKey; }
  }

  /** A key whose last byte is lost. */
  lemma LosesLastByte()
    ensures exists r: Record :: Decode(Encode(r)) != Ok(r)
  {
    hide Encode, Decode;
    var r := Record(Zeros(32), 0, 0, 0, 0, 0, Zeros(64), Zeros(33)[32 := 1]);
    SurvivesIff(r, []);
    assert Encode(r) + [] == Encode(r);
    assert Decode(Encode(r)) != Ok(r);
  }
}
