/** Database keys of unspent outputs: the transaction hash followed by the output
    index as a VLQ, and what the byte order of such keys is worth. */
module UtxoKey {
  import opened Bytes
  import opened Vlq

  const HASH_SIZE := 32
  type Hash = h: bytes | |h| == HASH_SIZE witness seq(HASH_SIZE, _ => 0)

  function OutpointKey(hash: Hash, index: nat): bytes {
    hash + Encode(index)
  }

  lemma OutpointKeyInjective(h1: Hash, i1: nat, h2: Hash, i2: nat)
    requires i1 < U64 && i2 < U64 && OutpointKey(h1, i1) == OutpointKey(h2, i2)
    ensures h1 == h2 && i1 == i2
  {
    assert h1 == OutpointKey(h1, i1)[..HASH_SIZE] == h2;
    assert Encode(i1) == OutpointKey(h1, i1)[HASH_SIZE..] == Encode(i2);
    RoundTrip(i1, []);
    RoundTrip(i2, []);
    assert Encode(i1) + [] == Encode(i1) && Encode(i2) + [] == Encode(i2);
  }

  /** Fills a key buffer the way the source does. */
  method MakeKey(hash: Hash, index: nat) returns (key: bytes)
    ensures key == OutpointKey(hash, index)
  {
    var size := SerializeSize(index);
    var buf := new byte[HASH_SIZE + size](i => if 0 <= i < HASH_SIZE then hash[i] else 0);
    var _ := Put(buf, HASH_SIZE, index);
    assert buf[..HASH_SIZE] == hash;
    key := buf[..];
  }

  /** The first key at or after `start` in the byte order of the cursor. */
  ghost predicate Sought(keys: set<bytes>, start: bytes, k: bytes) {
    k in keys && !Less(k, start) && forall k' | k' in keys && !Less(k', start) :: !Less(k', k)
  }

  /** Seeking to index 0 finds an entry of the hash if there is one at all. */
  lemma SeekFindsHash(keys: set<bytes>, hash: Hash, index: nat, k: bytes)
    requires OutpointKey(hash, index) in keys && Sought(keys, OutpointKey(hash, 0), k)
    ensures hash <= k
  {
    ZeroIsFirst(hash, index);
    Between(hash, Encode(0), k, Encode(index));
  }

  lemma ZeroIsFirst(hash: Hash, index: nat)
    ensures !Less(OutpointKey(hash, index), OutpointKey(hash, 0))
  {
    LessPrefix(hash, Encode(index), Encode(0));
    EncodeComplete(index);
  }

  /** `n` with its `j` low groups shifted out. */
  function Cut(n: nat, j: nat): nat
    decreases j
  {
    if j == 0 || n <= 127 then n else Cut(Up(n), j - 1)
  }

  /** Strings of as many groups compare like the numbers. */
  lemma {:induction false} GroupsOrder(a: nat, b: nat, s: bytes, t: bytes)
    requires |Groups(a)| == |Groups(b)|
    ensures Less(Groups(a) + s, Groups(b) + t) <==> a < b || (a == b && Less(s, t))
    decreases a
  {
    hide Up, Low;
    GroupsCount(a);
    GroupsCount(b);
    if a <= 127 {
      assert (Groups(a) + s)[1..] == s && (Groups(b) + t)[1..] == t;
    } else {
      var s', t' := [128 + Low(a)] + s, [128 + Low(b)] + t;
      assert Groups(a) + s == Groups(Up(a)) + s' && Groups(b) + t == Groups(Up(b)) + t';
      GroupsOrder(Up(a), Up(b), s', t');
      assert s'[1..] == s && t'[1..] == t;
    }
  }

  lemma {:induction false} GroupsCount(n: nat)
    ensures n <= 127 <==> |Groups(n)| == 1
    ensures |Groups(n)| == |Encode(n)| >= 1
  {
  }

  /** The leading groups of `n` are the groups of `n` cut down; what follows starts
      with another continuation byte unless only the last byte is left. */
  lemma {:induction false} Leading(n: nat, j: nat)
    requires 1 <= j < |Encode(n)|
    ensures |Groups(Cut(n, j))| == |Encode(n)| - j
    ensures Groups(Cut(n, j)) == Encode(n)[..|Encode(n)| - j]
    ensures j == 1 ==> Encode(n)[|Encode(n)| - 1..] == [Low(n)]
    ensures j > 1 ==> Encode(n)[|Encode(n)| - j] >= 128
  {
    hide Up, Low;
    LeadingGroups(Up(n), j - 1);
    EncodeComplete(n);
  }

  lemma {:induction false} LeadingGroups(m: nat, j: nat)
    requires j < |Groups(m)|
    ensures Groups(Cut(m, j)) == Groups(m)[..|Groups(m)| - j]
    decreases j
  {
    hide Up, Low;
    if j > 0 {
      GroupsCount(m);
      LeadingGroups(Up(m), j - 1);
    } else {
      assert Groups(m)[..|Groups(m)|] == Groups(m);
    }
  }

  lemma {:induction false} SizeMonotone(m: nat, n: nat)
    requires m <= n
    ensures |Groups(m)| <= |Groups(n)|
    decreases n
  {
    hide Up, Low;
    if m > 127 {
      SizeMonotone(Up(m), Up(n));
    }
  }

  /** Byte order follows index order exactly when the shorter index has one byte,
      both have as many bytes, or the shorter one's leading groups are not above
      the longer one's. */
  lemma KeyOrderIff(hash: Hash, m: nat, n: nat)
    requires m < n
    ensures var p, q := |Encode(m)|, |Encode(n)|;
            && 1 <= p <= q
            && (Less(OutpointKey(hash, m), OutpointKey(hash, n)) <==>
                  p == q || p == 1 || Up(m) <= Cut(n, q - p + 1))
  {
    hide Up, Low;
    LessPrefix(hash, Encode(m), Encode(n));
    GroupsCount(m);
    GroupsCount(n);
    SizeMonotone(m, n);
    EncodeComplete(n);
    var p, q := |Encode(m)|, |Encode(n)|;
    if p > 1 {
      var j := q - p + 1;
      Leading(m, 1);
      Leading(n, j);
      var c, rest := Cut(n, j), Encode(n)[q - j..];
      assert Cut(m, 1) == Up(m);
      assert Encode(m) == Groups(Up(m)) + [Low(m)] && Encode(n) == Groups(c) + rest;
      GroupsOrder(Up(m), c, [Low(m)], rest);
    }
  }

  /** Adjacent indexes where it does not, 16511 (ff 7f) and 16512 (80 80 00), and the smallest
      pair of all, 256 (81 00) and 16512. */
  lemma KeyOrderFails(hash: Hash)
    ensures !Less(OutpointKey(hash, 16511), OutpointKey(hash, 16512))
    ensures !Less(OutpointKey(hash, 256), OutpointKey(hash, 16512))
  {
    LessPrefix(hash, Encode(16511), Encode(16512));
    LessPrefix(hash, Encode(256), Encode(16512));
    assert Encode(16511) == [255, 127];
    assert Encode(16512) == [128, 128, 0];
    assert Encode(256) == [129, 0];
  }

  /** Below that pair byte order follows index order. */
  lemma KeyOrderHolds(hash: Hash, m: nat, n: nat)
    requires m < n <= 16512 && (n == 16512 ==> m < 256)
    ensures Less(OutpointKey(hash, m), OutpointKey(hash, n))
  {
    hide Less, OutpointKey;
    KeyOrderIff(hash, m, n);
    TwoBytes(n);
    TwoBytes(m);
    if n == 16512 { assert Cut(16512, 2) == Up(Up(16512)) == 0; }
  }

  lemma TwoBytes(n: nat)
    requires n <= 16512
    ensures |Encode(n)| == if n < 128 then 1 else if n < 16512 then 2 else 3
  {
  }
}
