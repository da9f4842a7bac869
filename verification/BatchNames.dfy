/**
 The names of sealed batches, `batch-<ts>-<seq>.zst` (src/spool/writer.rs). Eviction and shipping take the
 smallest name for the oldest batch; this module says exactly when that is right.
 */
module BatchNames {
  import opened Text

  function BatchName(ts: nat, seqNo: nat): string {
    "batch-" + (Decimal(ts) + ("-" + (Decimal(seqNo) + ".zst")))
  }

  /** `n` without its last `k` decimal digits. */
  function WithoutLast(n: nat, k: nat): nat {
    if k == 0 then n else WithoutLast(n / 10, k - 1)
  }

  /** A number printed without padding, and then a character that sorts before the digits, comes before another one. */
  predicate PrintsBefore(m: nat, n: nat) {
    var (v, w) := (|Decimal(m)|, |Decimal(n)|);
    if v <= w then m != n && m <= WithoutLast(n, w - v) else WithoutLast(m, v - w) < n
  }

  lemma {:induction false} DecimalPrefix(n: nat, k: nat)
    requires k < |Decimal(n)|
    ensures Decimal(n)[..|Decimal(n)| - k] == Decimal(WithoutLast(n, k))
    ensures k > 0 ==> '0' <= Decimal(n)[|Decimal(n)| - k] <= '9'
  {
    if k > 0 {
      var s := Decimal(n);
      var front := Decimal(n / 10);
      assert s == front + [Digit(n % 10)];
      DecimalPrefix(n / 10, k - 1);
      assert s[..|s| - k] == front[..|front| - (k - 1)];
      if k > 1 {
        assert s[|s| - k] == front[|front| - (k - 1)];
      }
    }
  }

  lemma SameWidthOrder(m: nat, n: nat)
    requires |Decimal(m)| == |Decimal(n)|
    ensures LexLess(Decimal(m), Decimal(n)) <==> m < n
    ensures Decimal(m) == Decimal(n) <==> m == n
  {
    DecimalIsFixed(m);
    DecimalIsFixed(n);
    FixedOrder(m, n, |Decimal(m)|);
  }

  lemma ShorterFirst(m: nat, n: nat, sep: char, x: string, y: string)
    requires |Decimal(m)| < |Decimal(n)| && sep < '0'
    ensures LexLess(Decimal(m) + ([sep] + x), Decimal(n) + ([sep] + y)) <==> PrintsBefore(m, n)
    ensures LexLess(Decimal(n) + ([sep] + y), Decimal(m) + ([sep] + x)) <==> PrintsBefore(n, m)
  {
    hide Decimal;
    var (a, b) := (Decimal(m), Decimal(n));
    var k := |b| - |a|;
    var (front, back) := (b[..|a|], b[|a|..]);
    DecimalPrefix(n, k);
    SameWidthOrder(m, WithoutLast(n, k));
    assert b + ([sep] + y) == front + (back + ([sep] + y));
    LexConcat(a, [sep] + x, front, back + ([sep] + y));
    LexConcat(front, back + ([sep] + y), a, [sep] + x);
    LexTotal(a, front);
    assert (back + ([sep] + y))[0] == b[|a|] > sep;
  }

  /** Two printed numbers, each followed by the same separator that sorts before the digits. */
  lemma NumberThenSeparator(m: nat, n: nat, sep: char, x: string, y: string)
    requires sep < '0'
    ensures LexLess(Decimal(m) + ([sep] + x), Decimal(n) + ([sep] + y))
       <==> PrintsBefore(m, n) || (m == n && LexLess(x, y))
  {
    hide Decimal;
    var (a, b) := (Decimal(m), Decimal(n));
    if |a| < |b| {
      ShorterFirst(m, n, sep, x, y);
    } else if |b| < |a| {
      ShorterFirst(n, m, sep, y, x);
    } else {
      SameWidthOrder(m, n);
      LexConcat(a, [sep] + x, b, [sep] + y);
      LexConcat([sep], x, [sep], y);
      LexTotal([sep], [sep]);
    }
  }

  /** A batch name gives its time stamp and number back. */
  lemma BatchNameReadsBack(ts: nat, seqNo: nat) returns (a: string, b: string)
    ensures BatchName(ts, seqNo) == "batch-" + a + "-" + b + ".zst"
    ensures IsDigits(a) && DecimalValue(a) == ts && IsDigits(b) && DecimalValue(b) == seqNo
  {
    a, b := Decimal(ts), Decimal(seqNo);
    DecimalReadsBack(ts);
    DecimalReadsBack(seqNo);
    hide Decimal, IsDigits, DecimalValue;
    assert "batch-" + (a + ("-" + (b + ".zst"))) == "batch-" + a + "-" + b + ".zst";
  }

  /** The exact order of batch names. */
  lemma NameOrder(ts: nat, s: nat, ts': nat, s': nat)
    ensures LexLess(BatchName(ts, s), BatchName(ts', s')) <==> PrintsBefore(ts, ts') || (ts == ts' && PrintsBefore(s, s'))
  {
    hide Decimal, LexLess, PrintsBefore;
    LexTotal("batch-", "batch-");
    LexTotal("zst", "zst");
    LexConcat("batch-", Decimal(ts) + ("-" + (Decimal(s) + ".zst")),
              "batch-", Decimal(ts') + ("-" + (Decimal(s') + ".zst")));
    NumberThenSeparator(ts, ts', '-', Decimal(s) + ".zst", Decimal(s') + ".zst");
    NumberThenSeparator(s, s', '.', "zst", "zst");
    assert ".zst" == ['.'] + "zst";
  }

  /** Names of different batches differ. */
  lemma NamesAreDistinct(ts: nat, s: nat, ts': nat, s': nat)
    requires BatchName(ts, s) == BatchName(ts', s')
    ensures ts == ts' && s == s'
  {
    NameOrder(ts, s, ts', s');
    NameOrder(ts', s', ts, s);
    LexTotal(BatchName(ts, s), BatchName(ts, s));
    if ts != ts' {
      PrintsBeforeIsTotal(ts, ts');
    } else if s != s' {
      PrintsBeforeIsTotal(s, s');
    }
  }

  lemma PrintsBeforeIsTotal(m: nat, n: nat)
    requires m != n
    ensures PrintsBefore(m, n) || PrintsBefore(n, m)
  {
  }

  /** Clock readings of one width (every reading from 2001 to 2286 has ten digits): later seconds sort later. */
  lemma LaterSecondSortsLater(ts: nat, s: nat, ts': nat, s': nat)
    requires ts < ts' && |Decimal(ts)| == |Decimal(ts')|
    ensures LexLess(BatchName(ts, s), BatchName(ts', s'))
  {
    NameOrder(ts, s, ts', s');
  }

  /**
   Inside one second the order of sealing, s < s', is the order of the names exactly when `s` is at most
   the leading digits of `s'`, as many of them as `s` has.
   */
  lemma WithinOneSecond(ts: nat, s: nat, s': nat)
    requires s < s'
    ensures LexLess(BatchName(ts, s), BatchName(ts, s')) <==>
            |Decimal(s)| <= |Decimal(s')| && s <= WithoutLast(s', |Decimal(s')| - |Decimal(s)|)
  {
    NameOrder(ts, s, ts, s');
    DecimalWidthMonotone(s, s');
  }

  lemma {:induction false} DecimalWidthMonotone(m: nat, n: nat)
    requires m <= n
    ensures |Decimal(m)| <= |Decimal(n)|
  {
    if m >= 10 {
      DecimalWidthMonotone(m / 10, n / 10);
    }
  }

  /** The documentation promises rotation order without exception; the tenth batch of a second breaks it. */
  lemma TenthBatchSortsFirst(ts: nat)
    ensures LexLess(BatchName(ts, 10), BatchName(ts, 9)) && !LexLess(BatchName(ts, 9), BatchName(ts, 10))
  {
    NameOrder(ts, 10, ts, 9);
    NameOrder(ts, 9, ts, 10);
    assert |Decimal(10)| == 2 && |Decimal(9)| == 1;
  }
}
