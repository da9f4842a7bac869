/**
 Choosing the batch to send and pacing the retries: `oldest_batch`, `next_backoff` and the loop of
 src/shipper/run.rs.
 */
module Shipper {
  import opened Options
  import opened Text
  import opened Eviction

  /** A batch by directory (in the order the shipper watches them) and name. */
  datatype Pick = Pick(dir: nat, name: string)

  /** `None` stands for a directory that cannot be read. */
  type Listings = seq<Option<seq<string>>>

  ghost predicate Candidate(dirs: Listings, p: Pick) {
    p.dir < |dirs| && dirs[p.dir].Some? && p.name in dirs[p.dir].value && IsBatchName(p.name)
  }

  predicate Before(p: Pick, q: Pick) {
    LexLess(p.name, q.name) || (p.name == q.name && p.dir <= q.dir)
  }

  /** The smallest name over all directories, the earlier directory winning a tie. */
  ghost predicate IsOldest(dirs: Listings, r: Option<Pick>) {
    match r
    case None => forall p :: !Candidate(dirs, p)
    case Some(best) => Candidate(dirs, best) && forall p | Candidate(dirs, p) :: Before(best, p)
  }

  lemma OldestIsUnique(dirs: Listings, r: Option<Pick>, r': Option<Pick>)
    requires IsOldest(dirs, r) && IsOldest(dirs, r')
    ensures r == r'
  {
    if r.Some? && r'.Some? {
      LexTotal(r.value.name, r'.value.name);
    }
  }

  /** What has been looked at: all of the first `d` directories and the first `n` names of the next one. */
  ghost predicate Seen(dirs: Listings, d: nat, n: nat, p: Pick) {
    && Candidate(dirs, p)
    && (p.dir < d
        || (p.dir == d && exists j | 0 <= j < n && j < |dirs[d].value| :: dirs[d].value[j] == p.name))
  }

  ghost predicate BestSoFar(dirs: Listings, d: nat, n: nat, r: Option<Pick>) {
    match r
    case None => forall p :: !Seen(dirs, d, n, p)
    case Some(best) => Seen(dirs, d, n, best) && forall p | Seen(dirs, d, n, p) :: Before(best, p)
  }

  method OldestBatch(dirs: Listings) returns (best: Option<Pick>)
    ensures IsOldest(dirs, best)
  {
    best := None;
    for d := 0 to |dirs|
      invariant BestSoFar(dirs, d, 0, best)
    {
      if dirs[d].None? {
        NextDirectory(dirs, d, best);
        continue;
      }
      var entries := dirs[d].value;
      for n := 0 to |entries|
        invariant BestSoFar(dirs, d, n, best)
      {
        var name := entries[n];
        NextEntry(dirs, d, n, best);
        if IsBatchName(name) && !(best.Some? && LexAtMost(best.value.name, name)) {
          best := Some(Pick(d, name));
        }
      }
      NextDirectory(dirs, d, best);
    }
    AllSeen(dirs, best);
  }

  lemma NextDirectory(dirs: Listings, d: nat, best: Option<Pick>)
    requires d < |dirs|
    requires dirs[d].None? ==> BestSoFar(dirs, d, 0, best)
    requires dirs[d].Some? ==> BestSoFar(dirs, d, |dirs[d].value|, best)
    ensures BestSoFar(dirs, d + 1, 0, best)
  {
    var n := if dirs[d].Some? then |dirs[d].value| else 0;
    SameSeen(dirs, d, n, d + 1, 0, best);
  }

  /** Nothing new has been looked at. */
  lemma SameSeen(dirs: Listings, d: nat, n: nat, d': nat, n': nat, best: Option<Pick>)
    requires BestSoFar(dirs, d, n, best)
    requires forall p :: Seen(dirs, d, n, p) <==> Seen(dirs, d', n', p)
    ensures BestSoFar(dirs, d', n', best)
  {
  }

  /** One more name: it replaces the best exactly when the best does not sort at or before it. */
  lemma NextEntry(dirs: Listings, d: nat, n: nat, best: Option<Pick>)
    requires d < |dirs| && dirs[d].Some? && n < |dirs[d].value| && BestSoFar(dirs, d, n, best)
    ensures var name := dirs[d].value[n];
            var keep := !IsBatchName(name) || (best.Some? && LexAtMost(best.value.name, name));
            BestSoFar(dirs, d, n + 1, if keep then best else Some(Pick(d, name)))
  {
    hide LexLess, IsBatchName;
    var name := dirs[d].value[n];
    var here := Pick(d, name);
    if !IsBatchName(name) {
      SameSeen(dirs, d, n, d, n + 1, best);
    } else {
      assert Seen(dirs, d, n + 1, here);
      assert forall p :: Seen(dirs, d, n + 1, p) <==> Seen(dirs, d, n, p) || p == here;
      if best.None? {
        forall p | Seen(dirs, d, n + 1, p)
          ensures Before(here, p)
        {
          assert !Seen(dirs, d, n, p);
        }
        assert BestSoFar(dirs, d, n + 1, Some(here));
      } else if LexAtMost(best.value.name, name) {
        assert Seen(dirs, d, n + 1, best.value);
        assert BestSoFar(dirs, d, n + 1, best);
      } else {
        LexTotal(best.value.name, name);
        forall p | Seen(dirs, d, n, p)
          ensures Before(here, p)
        {
          assert Before(best.value, p);
          if LexLess(best.value.name, p.name) {
            LexTransitive(name, best.value.name, p.name);
          }
        }
        assert BestSoFar(dirs, d, n + 1, Some(here));
      }
    }
  }

  lemma AllSeen(dirs: Listings, best: Option<Pick>)
    requires BestSoFar(dirs, |dirs|, 0, best)
    ensures IsOldest(dirs, best)
  {
    assert forall p :: Candidate(dirs, p) <==> Seen(dirs, |dirs|, 0, p);
  }

  // Backing off.

  /** The jitter source: one round of xorshift on the clock reading. */
  function Xorshift(clock: bv64): bv64 {
    var a := clock | 1;
    var b := a ^ (a << 13);
    var c := b ^ (b >> 7);
    c ^ (c << 17)
  }

  /** The generator is Marsaglia's xorshift with shifts 13, 7 and 17, by its first three numbers from 1. */
  lemma FirstFromOne()
    ensures Xorshift(1) == 1082269761 && Xorshift(1082269761) == 1152992998833853505
    ensures Xorshift(1152992998833853505) == 11177516664432764457
  {
  }

  function Min(a: int, b: int): int {
    if a <= b then a else b
  }

  /** Milliseconds before capping: `base` moved up or down by less than a quarter of itself. */
  function Jittered(base: nat, seed: bv64): int
    requires base >= 4
  {
    var jitter := seed as int % (base / 2);
    var signed := if seed & 1 == 0 then base + jitter / 2 else base - jitter / 2;
    if signed < 1 then 1 else signed
  }

  function NextBackoff(curr: nat, max: nat, clock: bv64): nat {
    var base := if curr == 0 then 1000 else Min(curr * 2, max);
    if base < 4 then base else Min(Jittered(base, Xorshift(clock)), max)
  }

  /** Every value is within a quarter of its base, above it for even seeds and below it for odd ones; so nothing on the way leaves 64 bits when the cap is below 2^61 ms. */
  lemma JitterIsAQuarter(base: nat, seed: bv64)
    requires base >= 4
    ensures 4 * Jittered(base, seed) >= 3 * base && 4 * Jittered(base, seed) <= 5 * base
    ensures if seed & 1 == 0 then Jittered(base, seed) >= base else Jittered(base, seed) <= base
    ensures base < 0x2000_0000_0000_0000 ==> Jittered(base, seed) < 0x4000_0000_0000_0000
  {
    var half := base / 2;
    var jitter := seed as int % half;
    assert 0 <= jitter < half;
  }

  /**
   A failure doubles the wait: up to the cap it is within a quarter of twice the one before, or of a second after
   none.
   */
  lemma BackoffDoubles(curr: nat, max: nat, clock: bv64)
    ensures var base := if curr == 0 then 1000 else if 2 * curr < max then 2 * curr else max;
      var next := NextBackoff(curr, max, clock);
      && (base < 4 ==> next == base)
      && (base >= 4 ==> next <= max && 4 * next <= 5 * base && (4 * next >= 3 * base || next == max))
  {
    hide Xorshift, Jittered;
    var base := if curr == 0 then 1000 else Min(curr * 2, max);
    if base >= 4 {
      JitterIsAQuarter(base, Xorshift(clock));
    }
  }

  function Pow15(k: nat): real {
    if k == 0 then 1.0 else 1.5 * Pow15(k - 1)
  }

  function RealMin(a: real, b: real): real {
    if a <= b then a else b
  }

  /** The bounds after `k` transient failures in a row. */
  predicate InBounds(k: nat, backoff: nat, max: nat) {
    if k == 0 then backoff == 0
    else RealMin(750.0 * Pow15(k - 1), 0.75 * max as real) <= backoff as real && backoff <= max
  }

  lemma BackoffGrows(k: nat, curr: nat, max: nat, clock: bv64)
    requires InBounds(k, curr, max)
    ensures InBounds(k + 1, NextBackoff(curr, max, clock), max)
  {
    hide Xorshift, Jittered;
    var seed := Xorshift(clock);
    var base := if curr == 0 then 1000 else Min(curr * 2, max);
    if base >= 4 {
      JitterIsAQuarter(base, seed);
    }
    assert Pow15(k) >= 1.0 by {
      Pow15AtLeastOne(k);
    }
    if curr == 0 && k > 0 {
      assert max == 0;
    }
  }

  lemma {:induction false} Pow15AtLeastOne(k: nat)
    ensures Pow15(k) >= 1.0
  {
    if k > 0 {
      Pow15AtLeastOne(k - 1);
    }
  }

  // The loop.

  datatype Attempt =
    | NoBatch
    | Accepted
    | Rejected
    | Transient(clock: bv64)

  /** Transient failures since the last accepted batch. A rejection neither counts nor resets. */
  function FailuresInARow(attempts: seq<Attempt>): nat {
    if attempts == [] then 0
    else
      var before := FailuresInARow(attempts[..|attempts| - 1]);
      match attempts[|attempts| - 1]
      case Accepted => 0
      case Transient(_) => before + 1
      case _ => before
  }

  class Loop {
    const max: nat
    const pollInterval: nat
    var backoff: nat
    var batchesSent: nat
    var batchesRejected: nat
    var sendRetries: nat

    constructor (max: nat, pollInterval: nat)
      ensures this.max == max && this.pollInterval == pollInterval && backoff == 0
      ensures batchesSent == 0 && batchesRejected == 0 && sendRetries == 0
    {
      this.max, this.pollInterval := max, pollInterval;
      backoff, batchesSent, batchesRejected, sendRetries := 0, 0, 0, 0;
    }

    /** One turn of the loop, up to the sleep it ends with; no sleep after a success. */
    method Turn(attempt: Attempt) returns (sleep: nat)
      modifies this
      ensures backoff == match attempt
                         case Accepted => 0
                         case Transient(clock) => NextBackoff(old(backoff), max, clock)
                         case _ => old(backoff)
      ensures sleep == match attempt case Accepted => 0 case Transient(_) => backoff case _ => pollInterval
      ensures batchesSent == old(batchesSent) + (if attempt.Accepted? then 1 else 0)
      ensures batchesRejected == old(batchesRejected) + (if attempt.Rejected? then 1 else 0)
      ensures sendRetries == old(sendRetries) + (if attempt.Transient? then 1 else 0)
    {
      match attempt {
        case Accepted =>
          batchesSent := batchesSent + 1;
          backoff := 0;
          sleep := 0;
        case Rejected =>
          batchesRejected := batchesRejected + 1;
          sleep := pollInterval;
        case Transient(clock) =>
          backoff := NextBackoff(backoff, max, clock);
          sendRetries := sendRetries + 1;
          sleep := backoff;
        case NoBatch =>
          sleep := pollInterval;
      }
    }

    /** However the attempts go, the wait after each is bounded by the failures in a row up to it. */
    method ShipperMain(attempts: seq<Attempt>) returns (sleeps: seq<nat>)
      requires backoff == 0
      modifies this
      ensures |sleeps| == |attempts|
      ensures InBounds(FailuresInARow(attempts), backoff, max)
      ensures forall i | 0 <= i < |attempts| && attempts[i].Transient? ::
                InBounds(FailuresInARow(attempts[..i + 1]), sleeps[i], max)
    {
      hide InBounds, NextBackoff;
      sleeps := [];
      assert InBounds(0, 0, max) by { Zero(max); }
      for i := 0 to |attempts|
        invariant |sleeps| == i
        invariant InBounds(FailuresInARow(attempts[..i]), backoff, max)
        invariant forall j | 0 <= j < i && attempts[j].Transient? ::
                    InBounds(FailuresInARow(attempts[..j + 1]), sleeps[j], max)
      {
        var k := FailuresInARow(attempts[..i]);
        assert attempts[..i + 1][..i] == attempts[..i];
        if attempts[i].Transient? {
          BackoffGrows(k, backoff, max, attempts[i].clock);
        }
        Zero(max);
        var sleep := Turn(attempts[i]);
        sleeps := sleeps + [sleep];
      }
      assert attempts[..|attempts|] == attempts;
    }
  }

  lemma Zero(max: nat)
    ensures InBounds(0, 0, max)
  {
  }
}
