/**
 The first 64 primes, which FIPS 180-4 (4.2.2 and 5.3.3) takes the SHA-256 constants from: a table, and the proof
 that it holds the primes up to 311, each once and in order.
 */
module Primes {
  /** The first 64 primes, in rows of eight. */
  const PRIMES: seq<seq<int>> := [
    [2, 3, 5, 7, 11, 13, 17, 19],
    [23, 29, 31, 37, 41, 43, 47, 53],
    [59, 61, 67, 71, 73, 79, 83, 89],
    [97, 101, 103, 107, 109, 113, 127, 131],
    [137, 139, 149, 151, 157, 163, 167, 173],
    [179, 181, 191, 193, 197, 199, 211, 223],
    [227, 229, 233, 239, 241, 251, 257, 263],
    [269, 271, 277, 281, 283, 293, 307, 311]
  ]

  function PrimeAt(t: nat): int
    requires t < 64
  {
    PRIMES[t / 8][t % 8]
  }

  predicate Divides(d: int, n: int) {
    d > 0 && n % d == 0
  }

  ghost predicate IsPrime(n: int) {
    n > 1 && forall d | 1 < d < n :: !Divides(d, n)
  }

  /** A multiple of `p` other than `p`. */
  predicate IsStruck(p: int, n: int) {
    p > 0 && n % p == 0 && n != p
  }

  /** What a sieve leaves of the numbers below 18 * 18. */
  predicate IsSieved(n: int) {
    && !IsStruck(2, n) && !IsStruck(3, n) && !IsStruck(5, n) && !IsStruck(7, n)
    && !IsStruck(11, n) && !IsStruck(13, n) && !IsStruck(17, n)
  }

  lemma MultipleIsStruck(p: int, h: int)
    requires p in [2, 3, 5, 7, 11, 13, 17] && h > 1
    ensures !IsSieved(p * h)
  {
    assert IsStruck(p, p * h) by {
      if p == 2 {
        assert (2 * h) % 2 == 0;
      } else if p == 3 {
        assert (3 * h) % 3 == 0;
      } else if p == 5 {
        assert (5 * h) % 5 == 0;
      } else if p == 7 {
        assert (7 * h) % 7 == 0;
      } else if p == 11 {
        assert (11 * h) % 11 == 0;
      } else if p == 13 {
        assert (13 * h) % 13 == 0;
      } else {
        assert (17 * h) % 17 == 0;
      }
    }
    hide IsStruck;
  }

  lemma ProductIsStruck(e: int, f: int)
    requires 1 < e <= 17 && 1 < f
    ensures !IsSieved(e * f)
  {
    hide IsSieved;
    var p := if e % 2 == 0 then 2 else if e % 3 == 0 then 3 else if e % 5 == 0 then 5 else e;
    var g := e / p;
    assert e == p * g && g >= 1;
    assert e * f == p * (g * f) && g * f >= f;
    MultipleIsStruck(p, g * f);
  }

  lemma SieveIsRight(n: int)
    requires 1 < n < 18 * 18
    ensures IsPrime(n) <==> IsSieved(n)
  {
    hide IsSieved;
    forall d | 1 < d < n && Divides(d, n)
      ensures !IsSieved(n)
    {
      var q := n / d;
      assert n == d * q;
      assert q > 1 by {
        assert q <= 1 ==> d * q <= d;
      }
      if d <= 17 {
        ProductIsStruck(d, q);
      } else {
        assert q > 17 ==> d * q >= 18 * q;
        ProductIsStruck(q, d);
      }
    }
    if IsPrime(n) {
      PrimeIsSieved(n);
    }
  }

  lemma PrimeIsSieved(n: int)
    requires IsPrime(n)
    ensures IsSieved(n)
  {
    hide IsPrime;
    PrimeIsNotStruck(2, n);
    PrimeIsNotStruck(3, n);
    PrimeIsNotStruck(5, n);
    PrimeIsNotStruck(7, n);
    PrimeIsNotStruck(11, n);
    PrimeIsNotStruck(13, n);
    PrimeIsNotStruck(17, n);
    hide IsStruck;
  }

  lemma PrimeIsNotStruck(p: int, n: int)
    requires IsPrime(n) && p > 1
    ensures !IsStruck(p, n)
  {
    if p < n {
      assert !Divides(p, n);
    }
  }

  /** Nothing is left from `lo` to `hi`. */
  predicate NoneLeft(lo: int, hi: int)
    decreases hi - lo
  {
    lo > hi || (!IsSieved(lo) && NoneLeft(lo + 1, hi))
  }

  lemma {:induction false} NoneLeftAt(lo: int, hi: int, n: int)
    requires NoneLeft(lo, hi) && lo <= n <= hi
    ensures !IsSieved(n)
    decreases hi - lo
  {
    hide IsSieved;
    if lo < n {
      NoneLeftAt(lo + 1, hi, n);
    }
  }

  // Between two neighbours of the table nothing is left.

  lemma SieveTo79()
    ensures NoneLeft(3, 2) && NoneLeft(4, 4) && NoneLeft(6, 6) && NoneLeft(8, 10) && NoneLeft(12, 12)
    ensures NoneLeft(14, 16) && NoneLeft(18, 18) && NoneLeft(20, 22) && NoneLeft(24, 28) && NoneLeft(30, 30)
    ensures NoneLeft(32, 36) && NoneLeft(38, 40) && NoneLeft(42, 42) && NoneLeft(44, 46) && NoneLeft(48, 52)
    ensures NoneLeft(54, 58) && NoneLeft(60, 60) && NoneLeft(62, 66) && NoneLeft(68, 70) && NoneLeft(72, 72)
    ensures NoneLeft(74, 78)
  {
  }

  lemma SieveTo191()
    ensures NoneLeft(80, 82) && NoneLeft(84, 88) && NoneLeft(90, 96) && NoneLeft(98, 100) && NoneLeft(102, 102)
    ensures NoneLeft(104, 106) && NoneLeft(108, 108) && NoneLeft(110, 112) && NoneLeft(114, 126) && NoneLeft(128, 130)
    ensures NoneLeft(132, 136) && NoneLeft(138, 138) && NoneLeft(140, 148) && NoneLeft(150, 150) && NoneLeft(152, 156)
    ensures NoneLeft(158, 162) && NoneLeft(164, 166) && NoneLeft(168, 172) && NoneLeft(174, 178) && NoneLeft(180, 180)
    ensures NoneLeft(182, 190)
  {
  }

  lemma SieveTo311()
    ensures NoneLeft(192, 192) && NoneLeft(194, 196) && NoneLeft(198, 198) && NoneLeft(200, 210) && NoneLeft(212, 222)
    ensures NoneLeft(224, 226) && NoneLeft(228, 228) && NoneLeft(230, 232) && NoneLeft(234, 238) && NoneLeft(240, 240)
    ensures NoneLeft(242, 250) && NoneLeft(252, 256) && NoneLeft(258, 262) && NoneLeft(264, 268) && NoneLeft(270, 270)
    ensures NoneLeft(272, 276) && NoneLeft(278, 280) && NoneLeft(282, 282) && NoneLeft(284, 292) && NoneLeft(294, 306)
    ensures NoneLeft(308, 310)
  {
  }

  /** After `p` the next number is `q`, with nothing left between them. */
  predicate IsNext(p: int, q: int) {
    p < q && NoneLeft(p + 1, q - 1)
  }

  predicate IsChain(ps: seq<int>) {
    && |ps| == 8 && IsNext(ps[0], ps[1]) && IsNext(ps[1], ps[2]) && IsNext(ps[2], ps[3]) && IsNext(ps[3], ps[4])
    && IsNext(ps[4], ps[5]) && IsNext(ps[5], ps[6]) && IsNext(ps[6], ps[7])
  }

  lemma ChainAt(ps: seq<int>, c: nat)
    requires IsChain(ps) && c < 7
    ensures IsNext(ps[c], ps[c + 1])
  {
    hide IsNext;
  }

  lemma ListedIsSieved(t: nat)
    requires t < 64
    ensures IsSieved(PrimeAt(t))
  {
    var ps := PRIMES[t / 8];
    assert t / 8 == 0 ==> IsSieved(ps[t % 8]);
    assert t / 8 == 1 ==> IsSieved(ps[t % 8]);
    assert t / 8 == 2 ==> IsSieved(ps[t % 8]);
    assert t / 8 == 3 ==> IsSieved(ps[t % 8]);
    assert t / 8 == 4 ==> IsSieved(ps[t % 8]);
    assert t / 8 == 5 ==> IsSieved(ps[t % 8]);
    assert t / 8 == 6 ==> IsSieved(ps[t % 8]);
  }

  lemma RowsAreChains(r: nat)
    requires r < 8
    ensures IsChain(PRIMES[r]) && (r < 7 ==> IsChain(PRIMES[r + 1]) && IsNext(PRIMES[r][7], PRIMES[r + 1][0]))
  {
    hide NoneLeft;
    SieveTo79();
    SieveTo191();
    SieveTo311();
  }

  lemma NextIsListed(t: nat)
    requires t < 63
    ensures IsNext(PrimeAt(t), PrimeAt(t + 1))
  {
    hide IsNext;
    RowsAreChains(t / 8);
    if t % 8 == 7 {
      assert (t + 1) / 8 == t / 8 + 1 && (t + 1) % 8 == 0;
    } else {
      assert (t + 1) / 8 == t / 8 && (t + 1) % 8 == t % 8 + 1;
      ChainAt(PRIMES[t / 8], t % 8);
    }
    hide IsChain;
  }

  lemma FirstAndLast()
    ensures PrimeAt(0) == 2 && PrimeAt(63) == 311
  {
  }

  /** In increasing order, so that a round has the next prime after that of the round before. */
  lemma {:induction false} PrimesIncrease(s: nat, t: nat)
    requires s < t < 64
    ensures PrimeAt(s) < PrimeAt(t)
  {
    hide PrimeAt, NoneLeft;
    NextIsListed(t - 1);
    if s < t - 1 {
      PrimesIncrease(s, t - 1);
    }
  }

  predicate IsListed(n: int, t: nat) {
    exists s: nat :: s < t <= 64 && PrimeAt(s) == n
  }

  lemma {:induction false} SievedIsListed(n: int, t: nat)
    requires t < 64 && 1 < n <= PrimeAt(t)
    ensures IsSieved(n) ==> IsListed(n, t + 1)
    decreases t
  {
    hide PrimeAt, IsSieved, NoneLeft;
    FirstAndLast();
    if n < PrimeAt(t) {
      NextIsListed(t - 1);
      if n <= PrimeAt(t - 1) {
        SievedIsListed(n, t - 1);
      } else {
        NoneLeftAt(PrimeAt(t - 1) + 1, PrimeAt(t) - 1, n);
      }
    }
  }

  /** The table holds the primes up to 311 and nothing else. */
  lemma PrimesAreListed(n: int)
    ensures IsPrime(n) && n <= 311 <==> IsListed(n, 64)
  {
    FirstAndLast();
    hide IsSieved, PrimeAt;
    if s: nat :| s < 64 && PrimeAt(s) == n {
      if 0 < s {
        PrimesIncrease(0, s);
      }
      if s < 63 {
        PrimesIncrease(s, 63);
      }
      ListedIsSieved(s);
      SieveIsRight(n);
    } else if 1 < n <= 311 {
      SieveIsRight(n);
      SievedIsListed(n, 63);
    }
  }
}
