/** Drawing an address at random: how likely an address is to be taken, and how many draws it
    takes at most.  Probabilities are real numbers; the random source is a list of draws. */
module AddrChance {
  import opened AddrBook
  import opened Options

  const LARGE := 0x4000_0000

  /** One draw: a bucket, a position in a tried list or a key in a new bucket, the number that
      decides on acceptance, and the time. */
  datatype Draw = Draw(bucket: nat, pick: nat, key: Key, randval: nat, now: int)

  /** An address that was attempted in the last ten minutes is a hundred times less likely. */
  function Base(e: Entry, now: int): real {
    var since := if now < e.lastAttempt then 0 else now - e.lastAttempt;
    if since < 10 * MINUTE then 0.01 else 1.0
  }

  /** Failed attempts divide by one and a half. */
  function Decayed(c: real, n: nat): real
    decreases n
  {
    if n == 0 then c else Decayed(c / 1.5, n - 1)
  }

  function Chance(e: Entry, now: int): real {
    Decayed(Base(e, now), if e.attempts < 0 then 0 else e.attempts)
  }

  predicate Accepts(e: Entry, d: Draw, factor: real) {
    d.randval as real < factor * Chance(e, d.now) * LARGE as real
  }

  /** The address that a draw names, if its bucket is not empty. */
  function Picked(b: Book, d: Draw, fromTried: bool): (k: Option<Key>)
    ensures k.Some? ==> k.value in b.index
  {
    if fromTried then
      if d.bucket < |b.tried| && b.tried[d.bucket] != [] && b.tried[d.bucket][d.pick % |b.tried[d.bucket]|] in b.index then
        Some(b.tried[d.bucket][d.pick % |b.tried[d.bucket]|])
      else None
    else if d.bucket < |b.news| && d.key in b.news[d.bucket] && d.key in b.index then Some(d.key)
    else None
  }

  /** The first draw whose address is accepted.  Every rejected address makes the next ones
      likelier by a fifth. */
  function FirstHit(b: Book, draws: seq<Draw>, fromTried: bool, factor: real): (i: nat)
    ensures i <= |draws| && (i < |draws| ==> Picked(b, draws[i], fromTried).Some?)
  {
    if draws == [] then 0
    else
      var k := Picked(b, draws[0], fromTried);
      if k.None? then 1 + FirstHit(b, draws[1..], fromTried, factor)
      else if Accepts(b.index[k.value], draws[0], factor) then 0
      else 1 + FirstHit(b, draws[1..], fromTried, factor * 1.2)
  }

  /** How many draws name an address. */
  function Picks(b: Book, draws: seq<Draw>, fromTried: bool): nat {
    if draws == [] then 0
    else (if Picked(b, draws[0], fromTried).Some? then 1 else 0) + Picks(b, draws[1..], fromTried)
  }

  function Power(x: real, n: nat): (r: real)
    requires x >= 1.0
    ensures r >= 1.0
  {
    if n == 0 then 1.0 else ProductAtLeastOne(x, Power(x, n - 1)); x * Power(x, n - 1)
  }

  lemma ProductAtLeastOne(x: real, y: real)
    requires x >= 1.0 && y >= 1.0
    ensures x * y >= 1.0
  {
    assert (x - 1.0) * y >= 0.0;
  }

  lemma MulAtMost(x: real, y: real, z: real)
    requires x <= y && z >= 0.0
    ensures x * z <= y * z
  {
    assert (y - x) * z >= 0.0;
  }

  lemma Associate(x: real, y: real, z: real)
    ensures x * (y * z) == (x * y) * z
  {
  }

  lemma {:induction false} PowerSum(x: real, m: nat, n: nat)
    requires x >= 1.0
    ensures Power(x, m + n) == Power(x, m) * Power(x, n)
  {
    if m > 0 {
      PowerSum(x, m - 1, n);
      Associate(x, Power(x, m - 1), Power(x, n));
    }
  }

  /** A decayed chance, multiplied up again, is the chance it came from. */
  lemma {:induction false} DecayedBack(c: real, n: nat)
    ensures Decayed(c, n) * Power(1.5, n) == c
    decreases n
  {
    if n > 0 {
      DecayedBack(c / 1.5, n - 1);
      assert Decayed(c, n) * (1.5 * Power(1.5, n - 1)) == 1.5 * (Decayed(c / 1.5, n - 1) * Power(1.5, n - 1));
    }
  }

  /** Three rejections make up for one failed attempt. */
  lemma {:induction false} ThreeForOne(a: nat)
    ensures Power(1.2, 3 * a) >= Power(1.5, a)
  {
    if a > 0 {
      ThreeForOne(a - 1);
      PowerSum(1.2, 3, 3 * (a - 1));
      assert Power(1.2, 3) == 1.2 * (1.2 * (1.2 * 1.0)) == 1.728;
      assert 3 + 3 * (a - 1) == 3 * a;
    }
  }

  /** Twenty-six make up for a recent attempt. */
  lemma TwentySix()
    ensures Power(1.2, 26) >= 100.0
  {
    assert Power(1.2, 2) == 1.44;
    PowerSum(1.2, 2, 2);
    PowerSum(1.2, 4, 4);
    PowerSum(1.2, 8, 8);
    PowerSum(1.2, 16, 8);
    PowerSum(1.2, 24, 2);
    assert Power(1.2, 4) == 2.0736;
    assert Power(1.2, 8) >= 4.29;
    MulAtMost(4.29, Power(1.2, 8), 4.29);
    MulAtMost(4.29, Power(1.2, 8), Power(1.2, 8));
    assert Power(1.2, 16) >= 18.4;
    MulAtMost(18.4, Power(1.2, 16), 4.29);
    MulAtMost(4.29, Power(1.2, 8), Power(1.2, 16));
    assert Power(1.2, 24) >= 78.9;
  }

  function Patience(attempts: nat): nat {
    26 + 3 * attempts
  }

  /** After that many rejections an address with so many failed attempts is taken for certain. */
  lemma AcceptedAfter(e: Entry, d: Draw, k: nat)
    requires d.randval < LARGE && k >= Patience(if e.attempts < 0 then 0 else e.attempts)
    ensures Accepts(e, d, Power(1.2, k))
  {
    hide Power, Decayed;
    var a: nat := if e.attempts < 0 then 0 else e.attempts;
    DecayedBack(Base(e, d.now), a);
    CertainAfter(Chance(e, d.now), a, k);
    MulAtMost(1.0, Power(1.2, k) * Chance(e, d.now), LARGE as real);
  }

  lemma CertainAfter(c: real, a: nat, k: nat)
    requires c * Power(1.5, a) >= 0.01 && k >= Patience(a)
    ensures Power(1.2, k) * c >= 1.0
  {
    hide Power;
    PowerSum(1.2, 26, 3 * a);
    PowerSum(1.2, Patience(a), k - Patience(a));
    TwentySix();
    ThreeForOne(a);
    Outgrown(Power(1.2, 26), Power(1.2, 3 * a), Power(1.5, a), Power(1.2, k - Patience(a)), c);
  }

  lemma Outgrown(t: real, u: real, v: real, w: real, c: real)
    requires t >= 100.0 && u >= v >= 1.0 && w >= 1.0 && c * v >= 0.01
    ensures t * u * w * c >= 1.0
  {
    assert c > 0.0 by { if c <= 0.0 { MulAtMost(c, 0.0, v); } }
    MulAtMost(v, u, c);
    var uc := u * c;
    assert uc >= v * c == c * v;
    MulAtMost(100.0, t, uc);
    assert t * uc >= 100.0 * uc >= 1.0;
    ProductAtLeastOne(w, t * uc);
    assert t * u * w * c == w * (t * uc);
  }

  /** Drawing ends: when more draws than that name an address, and no address has more than
      `most` failed attempts, one of them is accepted. */
  lemma DrawingEnds(b: Book, draws: seq<Draw>, fromTried: bool, most: nat)
    requires forall k | k in b.index :: b.index[k].attempts <= most
    requires forall d | d in draws :: d.randval < LARGE
    requires Picks(b, draws, fromTried) > Patience(most)
    ensures FirstHit(b, draws, fromTried, 1.0) < |draws|
  {
    EndsFrom(b, draws, fromTried, most, 0);
  }

  lemma {:induction false} EndsFrom(b: Book, draws: seq<Draw>, fromTried: bool, most: nat, k: nat)
    requires forall k | k in b.index :: b.index[k].attempts <= most
    requires forall d | d in draws :: d.randval < LARGE
    requires k + Picks(b, draws, fromTried) > Patience(most) >= k
    ensures FirstHit(b, draws, fromTried, Power(1.2, k)) < |draws|
    decreases |draws|
  {
    hide Picked, Accepts;
    var key := Picked(b, draws[0], fromTried);
    if key.None? {
      EndsFrom(b, draws[1..], fromTried, most, k);
    } else if !Accepts(b.index[key.value], draws[0], Power(1.2, k)) {
      if k == Patience(most) { AcceptedAfter(b.index[key.value], draws[0], k); }
      EndsFrom(b, draws[1..], fromTried, most, k + 1);
    }
  }

  lemma {:induction false} NothingPicked(b: Book, draws: seq<Draw>, fromTried: bool, factor: real)
    requires b.index == map[]
    ensures FirstHit(b, draws, fromTried, factor) == |draws|
    decreases |draws|
  {
    hide Accepts;
    if draws != [] { NothingPicked(b, draws[1..], fromTried, factor); }
  }

  lemma HitStep(b: Book, draws: seq<Draw>, i: nat, fromTried: bool, factor: real)
    requires i < |draws|
    ensures FirstHit(b, draws[i..], fromTried, factor)
            == var k := Picked(b, draws[i], fromTried);
               if k.None? then 1 + FirstHit(b, draws[i + 1..], fromTried, factor)
               else if Accepts(b.index[k.value], draws[i], factor) then 0
               else 1 + FirstHit(b, draws[i + 1..], fromTried, factor * 1.2)
  {
    hide Picked, Accepts;
    assert draws[i..][1..] == draws[i + 1..];
  }

  /** When an address is accepted: its random number, scaled up by one and a half for every failed
      attempt, lies below the factor's share of 2^30, of which an address attempted within ten
      minutes has a hundredth. */
  lemma AcceptsIff(e: Entry, d: Draw, factor: real)
    ensures var a: nat := if e.attempts < 0 then 0 else e.attempts;
            var share := if d.now - e.lastAttempt < 600 then 0.01 else 1.0;
            Accepts(e, d, factor) <==> d.randval as real * Power(1.5, a) < factor * share * 1073741824.0
  {
    hide Power, Decayed;
    var a: nat := if e.attempts < 0 then 0 else e.attempts;
    DecayedBack(Base(e, d.now), a);
    ScaledUp(d.randval as real, factor, Chance(e, d.now), Power(1.5, a), Base(e, d.now));
  }

  lemma ScaledUp(r: real, factor: real, c: real, p: real, base: real)
    requires p >= 1.0 && c * p == base
    ensures r < factor * c * LARGE as real <==> r * p < factor * base * 1073741824.0
  {
    var x := factor * c * LARGE as real;
    assert x * p == factor * (c * p) * 1073741824.0;
    if r < x { assert (x - r) * p > 0.0; }
    if r >= x { assert (r - x) * p >= 0.0; }
  }

  /** At first an address without failures and not just attempted is always taken, and one that was
      just attempted by one number in a hundred. */
  lemma FirstChances(e: Entry, d: Draw)
    requires e.attempts == 0 && d.randval < LARGE
    ensures d.now - e.lastAttempt >= 600 ==> Accepts(e, d, 1.0)
    ensures d.now - e.lastAttempt < 600 ==> (Accepts(e, d, 1.0) <==> d.randval <= 10737418)
  {
  }

  /** The draw that decides: what was named before it was rejected, with the factor raised by a
      fifth after each, and what it names is accepted. */
  lemma FirstHitMeans(b: Book, draws: seq<Draw>, fromTried: bool)
    ensures HitAfter(b, draws, fromTried, 0, FirstHit(b, draws, fromTried, 1.0))
  {
    HitFrom(b, draws, fromTried, 0);
  }

  ghost predicate HitAfter(b: Book, draws: seq<Draw>, fromTried: bool, k: nat, i: nat) {
    && i <= |draws| && (forall j | 0 <= j < i :: !TakenAt(b, draws, fromTried, k, j)) && (i < |draws| ==> TakenAt(b, draws, fromTried, k, i))
  }

  /** Draw `j` names an address that is accepted after the earlier rejections and `k` more. */
  ghost predicate TakenAt(b: Book, draws: seq<Draw>, fromTried: bool, k: nat, j: nat)
    requires j < |draws|
  {
    var key := Picked(b, draws[j], fromTried);
    key.Some? && Accepts(b.index[key.value], draws[j], Power(1.2, k + Picks(b, draws[..j], fromTried)))
  }

  lemma TakenShifts(b: Book, draws: seq<Draw>, fromTried: bool, k: nat, j: nat)
    requires j + 1 < |draws|
    ensures TakenAt(b, draws, fromTried, k, j + 1)
            <==> TakenAt(b, draws[1..], fromTried, if Picked(b, draws[0], fromTried).None? then k else k + 1, j)
  {
    hide Picked, Accepts, Power;
    assert draws[..j + 1][0] == draws[0] && draws[..j + 1][1..] == draws[1..][..j];
  }

  lemma {:induction false} HitFrom(b: Book, draws: seq<Draw>, fromTried: bool, k: nat)
    ensures HitAfter(b, draws, fromTried, k, FirstHit(b, draws, fromTried, Power(1.2, k)))
    decreases |draws|
  {
    hide Picked, Accepts, TakenAt;
    if draws != [] {
      FirstTaken(b, draws, fromTried, k);
      if !TakenAt(b, draws, fromTried, k, 0) {
        var k' := if Picked(b, draws[0], fromTried).None? then k else k + 1;
        HitFrom(b, draws[1..], fromTried, k');
        var i := FirstHit(b, draws[1..], fromTried, Power(1.2, k'));
        forall j | 0 <= j < i + 1 ensures !TakenAt(b, draws, fromTried, k, j) {
          if j > 0 { TakenShifts(b, draws, fromTried, k, j - 1); }
        }
        if i + 1 < |draws| { TakenShifts(b, draws, fromTried, k, i); }
      }
    }
  }

  lemma FirstTaken(b: Book, draws: seq<Draw>, fromTried: bool, k: nat)
    requires draws != []
    ensures var k' := if Picked(b, draws[0], fromTried).None? then k else k + 1;
            FirstHit(b, draws, fromTried, Power(1.2, k))
            == if TakenAt(b, draws, fromTried, k, 0) then 0 else 1 + FirstHit(b, draws[1..], fromTried, Power(1.2, k'))
  {
    hide Picked, Accepts;
  }

  /** Every known address is named by some draw from its table. */
  lemma EveryDrawable(b: Book, h: Hashes, k: Key) returns (d: Draw)
    requires b.Inv(h) && k in b.index
    ensures Picked(b, d, b.index[k].tried) == Some(k)
  {
    hide RefsOf;
    if b.index[k].tried {
      var list := b.tried[h.TriedBucket(k)];
      assert k in b.TriedKeys();
      var i :| 0 <= i < |list| && list[i] == k;
      SmallRemainder(i, |list|);
      d := Draw(h.TriedBucket(k), i, k, 0, 0);
    } else {
      assert k in b.NewKeys();
      NewHasHolder(b, h, k);
      var i :| 0 <= i < |b.news| && k in b.news[i];
      d := Draw(i, 0, k, 0, 0);
    }
  }

  lemma SmallRemainder(i: nat, n: nat)
    requires i < n
    ensures i % n == i
  {
  }
}
