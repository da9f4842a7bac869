/**
 The timestamps the plugin server stamps on events, `YYYY-MM-DDTHH:MM:SS.mmmZ` (src/plugin/server.rs):
 comparing two of them as text compares the instants.
 */
module Timestamp {
  import opened Text
  import opened Calendar

  type U64 = n: nat | n <= 0xFFFF_FFFF_FFFF_FFFF

  function FormatIso8601Ns(ns: U64): string {
    var totalSecs := ns / 1_000_000_000;
    var ms := ns % 1_000_000_000 / 1_000_000;
    var secs := totalSecs % 60;
    var mins := totalSecs / 60 % 60;
    var hours := totalSecs / 3600 % 24;
    var date := DateOfSeconds(totalSecs);
    PadThen(date.year, 4, '-', PadThen(date.month, 2, '-', PadThen(date.day, 2, 'T',
      PadThen(hours, 2, ':', PadThen(mins, 2, ':', PadThen(secs, 2, '.', PadThen(ms, 3, 'Z', "")))))))
  }

  /** One `{:0w}` field of the format string, the character after it, and the rest. */
  function PadThen(n: nat, w: nat, separator: char, rest: string): string {
    Padded(n, w) + ([separator] + rest)
  }

  /** The date, with the facts that make its parts printable. */
  function DateOfSeconds(t: nat): (d: Date)
    requires t <= 18_446_744_073
    ensures IsDate(d) && 1970 <= d.year < 10_000
  {
    hide CivilFromDays, IsDate;
    ClosedFormIsTheCalendar(t / 86_400);
    YearHasFourDigits(t / 86_400);
    CivilFromDays(t / 86_400)
  }

  /** The printed fields, the most significant first. */
  datatype Fields = Fields(year: nat, month: nat, day: nat, hours: nat, mins: nat, secs: nat, ms: nat) {
    function Get(i: nat): nat
      requires i < 7
    {
      if i == 0 then year else if i == 1 then month else if i == 2 then day else if i == 3 then hours
      else if i == 4 then mins else if i == 5 then secs else ms
    }
  }

  function Width(i: nat): nat {
    if i == 0 then 4 else if i == 6 then 3 else 2
  }

  const SEPARATORS: string := "--T::.Z"

  predicate Fit(f: Fields) {
    f.year < 10_000 && f.month < 100 && f.day < 100 && f.hours < 100 && f.mins < 100 && f.secs < 100 && f.ms < 1000
  }

  function FieldsOf(ns: U64): (f: Fields)
    ensures Fit(f)
  {
    FieldsAt(ns / 1_000_000_000, ns % 1_000_000_000 / 1_000_000)
  }

  function FieldsAt(t: nat, ms: nat): (f: Fields)
    requires t <= 18_446_744_073 && ms < 1000
    ensures Fit(f)
  {
    var date := DateOfSeconds(t);
    Fields(date.year, date.month, date.day, t / 3600 % 24, t / 60 % 60, t % 60, ms)
  }

  /** The fields from the `i`th on, each in its fixed width and followed by its separator. */
  function Render(f: Fields, i: nat): (s: string)
    requires i <= 7
    ensures i == 7 ==> s == ""
    decreases 7 - i
  {
    if i == 7 then "" else Fixed(f.Get(i), Width(i)) + ([SEPARATORS[i]] + Render(f, i + 1))
  }

  predicate Less(a: Fields, b: Fields, i: nat)
    requires i <= 7
    decreases 7 - i
  {
    i < 7 && (a.Get(i) < b.Get(i) || (a.Get(i) == b.Get(i) && Less(a, b, i + 1)))
  }

  lemma FieldFits(f: Fields, i: nat)
    requires Fit(f) && i < 7
    ensures f.Get(i) < Pow10(Width(i))
  {
    assert Pow10(2) == 100 && Pow10(3) == 1000 && Pow10(4) == 10_000 by {
      assert Pow10(1) == 10 * Pow10(0);
    }
  }

  /** One field and its separator are compared before the rest. */
  lemma FirstFieldDecides(x: string, y: string, sep: string, p: string, q: string)
    requires |x| == |y| && |sep| == 1
    ensures LexLess(x + (sep + p), y + (sep + q)) <==> LexLess(x, y) || (x == y && LexLess(p, q))
    ensures x + (sep + p) == y + (sep + q) <==> x == y && p == q
  {
    LexConcat(x, sep + p, y, sep + q);
    LexConcat(sep, p, sep, q);
    LexTotal(sep, sep);
    var (s, t) := (x + (sep + p), y + (sep + q));
    assert s[..|x|] == x && t[..|x|] == y;
    assert s[|x| + 1..] == p && t[|x| + 1..] == q;
  }

  /** Texts of this layout are ordered as their fields are. */
  lemma {:induction false} RenderOrder(a: Fields, b: Fields, i: nat)
    requires Fit(a) && Fit(b) && i <= 7
    ensures LexLess(Render(a, i), Render(b, i)) <==> Less(a, b, i)
    ensures Render(a, i) == Render(b, i) <==> forall j | i <= j < 7 :: a.Get(j) == b.Get(j)
    decreases 7 - i
  {
    hide LexLess, Fixed;
    if i < 7 {
      RenderOrder(a, b, i + 1);
      FieldFits(a, i);
      FieldFits(b, i);
      FixedOrder(a.Get(i), b.Get(i), Width(i));
      FirstFieldDecides(Fixed(a.Get(i), Width(i)), Fixed(b.Get(i), Width(i)), [SEPARATORS[i]],
                        Render(a, i + 1), Render(b, i + 1));
    } else {
      LexTotal("", "");
    }
  }

  lemma RenderStep(f: Fields, i: nat)
    requires Fit(f) && i < 7
    ensures Render(f, i) == PadThen(f.Get(i), Width(i), SEPARATORS[i], Render(f, i + 1))
    ensures |Render(f, i)| == Width(i) + 1 + |Render(f, i + 1)|
  {
    hide Padded, Fixed;
    FieldFits(f, i);
    PaddedIsFixed(f.Get(i), Width(i));
  }

  /** Every field fits its width, so the printed text has the fixed layout of 24 characters. */
  lemma FormatIsFixed(ns: U64)
    ensures FormatIso8601Ns(ns) == Render(FieldsOf(ns), 0)
    ensures |FormatIso8601Ns(ns)| == 24
  {
    hide Fixed, Padded, PadThen, DateOfSeconds, Fit, Render;
    var f := FieldsOf(ns);
    RenderStep(f, 6);
    RenderStep(f, 5);
    RenderStep(f, 4);
    RenderStep(f, 3);
    RenderStep(f, 2);
    RenderStep(f, 1);
    RenderStep(f, 0);
  }

  // Fields against milliseconds.

  /** The time of day of second `t`, in parts. */
  lemma ClockParts(t: nat)
    ensures t == 86_400 * (t / 86_400) + 3600 * (t / 3600 % 24) + 60 * (t / 60 % 60) + t % 60
  {
    var (m, h) := (t / 60, t / 3600);
    QuotientIs(t, 3600, m / 60, 60 * (m % 60) + t % 60);
    QuotientIs(t, 86_400, h / 24, 3600 * (h % 24) + 60 * (m % 60) + t % 60);
  }

  lemma MillisParts(ns: nat)
    ensures ns / 1_000_000 == 1000 * (ns / 1_000_000_000) + ns % 1_000_000_000 / 1_000_000
  {
    var (t, r) := (ns / 1_000_000_000, ns % 1_000_000_000);
    QuotientIs(ns, 1_000_000, 1000 * t + r / 1_000_000, r % 1_000_000);
  }

  lemma FieldsIncrease(a: U64, b: U64)
    requires a / 1_000_000 < b / 1_000_000
    ensures Less(FieldsOf(a), FieldsOf(b), 0)
  {
    hide CivilFromDays, IsDate;
    MillisParts(a);
    MillisParts(b);
    var (s, t) := (a / 1_000_000_000, b / 1_000_000_000);
    ClockParts(s);
    ClockParts(t);
    var (f, g) := (FieldsOf(a), FieldsOf(b));
    if s / 86_400 < t / 86_400 {
      DatesAreOrdered(s / 86_400, t / 86_400);
      LessByDate(f, g);
    } else {
      assert s / 86_400 == t / 86_400;
      LessByClock(f, g);
    }
  }

  lemma LessByDate(f: Fields, g: Fields)
    requires Earlier(Date(f.year, f.month, f.day), Date(g.year, g.month, g.day))
    ensures Less(f, g, 0)
  {
    assert Less(f, g, 2) <==> f.day < g.day || (f.day == g.day && Less(f, g, 3));
    assert Less(f, g, 1) <==> f.month < g.month || (f.month == g.month && Less(f, g, 2));
  }

  lemma LessByClock(f: Fields, g: Fields)
    requires f.year == g.year && f.month == g.month && f.day == g.day && Fit(f) && Fit(g)
    requires f.secs < 60 && g.secs < 60 && f.mins < 60 && g.mins < 60
    requires 1000 * (3600 * f.hours + 60 * f.mins + f.secs) + f.ms < 1000 * (3600 * g.hours + 60 * g.mins + g.secs) + g.ms
    ensures Less(f, g, 0)
  {
    assert Less(f, g, 6) <==> f.ms < g.ms;
    assert Less(f, g, 5) <==> f.secs < g.secs || (f.secs == g.secs && Less(f, g, 6));
    assert Less(f, g, 4) <==> f.mins < g.mins || (f.mins == g.mins && Less(f, g, 5));
    assert Less(f, g, 3) <==> f.hours < g.hours || (f.hours == g.hours && Less(f, g, 4));
    assert Less(f, g, 2) == Less(f, g, 3) && Less(f, g, 1) == Less(f, g, 2);
  }

  /** Timestamps compare as texts exactly as their instants do, to the millisecond. */
  lemma TimestampOrder(a: U64, b: U64)
    ensures LexLess(FormatIso8601Ns(a), FormatIso8601Ns(b)) <==> a / 1_000_000 < b / 1_000_000
    ensures FormatIso8601Ns(a) == FormatIso8601Ns(b) <==> a / 1_000_000 == b / 1_000_000
  {
    hide FormatIso8601Ns, FieldsOf, LexLess, Less, Render;
    var (x, y) := (FieldsOf(a), FieldsOf(b));
    FormatIsFixed(a);
    FormatIsFixed(b);
    RenderOrder(x, y, 0);
    RenderOrder(y, x, 0);
    LexTotal(FormatIso8601Ns(a), FormatIso8601Ns(b));
    if a / 1_000_000 < b / 1_000_000 {
      FieldsIncrease(a, b);
    } else if b / 1_000_000 < a / 1_000_000 {
      FieldsIncrease(b, a);
    } else {
      SameMillisSameFields(a, b);
    }
  }

  lemma SameMillisSameFields(a: U64, b: U64)
    requires a / 1_000_000 == b / 1_000_000
    ensures FieldsOf(a) == FieldsOf(b)
  {
    hide FieldsAt;
    MillisParts(a);
    MillisParts(b);
  }

  // Reading a timestamp back.

  /** The text has `w` digits from `i` on. */
  predicate DigitsAt(s: string, i: nat, w: nat) {
    i + w <= |s| && IsDigits(s[i..i + w])
  }

  /** The number they are. */
  ghost function NumberAt(s: string, i: nat, w: nat): nat
    requires DigitsAt(s, i, w)
  {
    DecimalValue(s[i..i + w])
  }

  /** Where field `i` begins. */
  function Position(i: nat): nat
    requires i <= 7
  {
    if i == 0 then 0 else Position(i - 1) + Width(i - 1) + 1
  }

  lemma FieldReadsBack(s: string, f: Fields, i: nat)
    requires Fit(f) && i < 7 && Position(i) <= |s| && s[Position(i)..] == Render(f, i)
    ensures DigitsAt(s, Position(i), Width(i)) && NumberAt(s, Position(i), Width(i)) == f.Get(i)
    ensures Position(i + 1) <= |s| && s[Position(i) + Width(i)] == SEPARATORS[i]
    ensures s[Position(i + 1)..] == Render(f, i + 1)
  {
    hide Fixed, Render, IsDigits, DecimalValue, Fit;
    var (p, w) := (Position(i), Width(i));
    var (number, rest) := (Fixed(f.Get(i), w), Render(f, i + 1));
    RenderedField(f, i);
    FieldFits(f, i);
    FixedReadsBack(f.Get(i), w);
    var here := s[p..];
    assert here[..w] == number && here[w] == SEPARATORS[i] && here[w + 1..] == rest;
    assert s[p..p + w] == here[..w] && s[p + w] == here[w] && s[p + w + 1..] == here[w + 1..];
  }

  lemma RenderedField(f: Fields, i: nat)
    requires i < 7
    ensures Render(f, i) == Fixed(f.Get(i), Width(i)) + ([SEPARATORS[i]] + Render(f, i + 1))
  {
  }

  /** Date and time of day in the layout `YYYY-MM-DDTHH:MM:SS.mmmZ`. */
  predicate IsLaidOut(s: string) {
    && |s| == 24
    && s[4] == '-' && s[7] == '-' && s[10] == 'T' && s[13] == ':' && s[16] == ':' && s[19] == '.' && s[23] == 'Z'
    && DigitsAt(s, 0, 4) && DigitsAt(s, 5, 2) && DigitsAt(s, 8, 2)
    && DigitsAt(s, 11, 2) && DigitsAt(s, 14, 2) && DigitsAt(s, 17, 2) && DigitsAt(s, 20, 3)
  }

  /** The fields, where the layout has them. */
  lemma FieldsReadBack(s: string, f: Fields)
    requires Fit(f) && s == Render(f, 0)
    ensures IsLaidOut(s)
    ensures NumberAt(s, 0, 4) == f.year && NumberAt(s, 5, 2) == f.month && NumberAt(s, 8, 2) == f.day
    ensures NumberAt(s, 11, 2) == f.hours && NumberAt(s, 14, 2) == f.mins && NumberAt(s, 17, 2) == f.secs
    ensures NumberAt(s, 20, 3) == f.ms
  {
    hide Render, DigitsAt, NumberAt, Fit;
    assert s[0..] == s;
    FieldReadsBack(s, f, 0);
    FieldReadsBack(s, f, 1);
    FieldReadsBack(s, f, 2);
    FieldReadsBack(s, f, 3);
    FieldReadsBack(s, f, 4);
    FieldReadsBack(s, f, 5);
    FieldReadsBack(s, f, 6);
    NothingBehind(f);
    assert Position(7) == 24;
  }

  lemma NothingBehind(f: Fields)
    ensures Render(f, 7) == ""
  {
  }

  /** The date that is read from the text. */
  ghost function DateIn(s: string): Date
    requires IsLaidOut(s)
  {
    Date(NumberAt(s, 0, 4), NumberAt(s, 5, 2), NumberAt(s, 8, 2))
  }

  /** What is printed reads back as a date of the calendar and a time of day, and they are those of the instant. */
  lemma TimestampReadsBack(ns: U64)
    ensures IsLaidOut(FormatIso8601Ns(ns))
    ensures var s := FormatIso8601Ns(ns);
      var (hours, mins, secs, ms) := (NumberAt(s, 11, 2), NumberAt(s, 14, 2), NumberAt(s, 17, 2), NumberAt(s, 20, 3));
      && IsDate(DateIn(s)) && hours < 24 && mins < 60 && secs < 60
      && (((DaysFromCivil(DateIn(s)) * 24 + hours) * 60 + mins) * 60 + secs) * 1000 + ms == ns / 1_000_000
  {
    hide FormatIso8601Ns, Render, DigitsAt, NumberAt, CivilFromDays, IsDate, DaysFromCivil;
    var t := ns / 1_000_000_000;
    FormatIsFixed(ns);
    FieldsReadBack(FormatIso8601Ns(ns), FieldsOf(ns));
    assert DateIn(FormatIso8601Ns(ns)) == DateOfSeconds(t);
    MillisParts(ns);
    ClockParts(t);
    ClosedFormIsTheCalendar(t / 86_400);
  }
}
