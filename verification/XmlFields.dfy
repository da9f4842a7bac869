/**
 Pulling the data fields and the event id out of raw event XML, and adding them to a plugin's payload:
 `scan_data_fields`, `normalize_data_key`, `scan_event_id` and `enrich_with_xml_data_fields` of
 src/plugin/server.rs.
 */
module XmlFields {
  import opened Options
  import opened Text
  import opened Entities

  // Searching.

  predicate OccursAt(s: string, pattern: string, i: nat) {
    i + |pattern| <= |s| && s[i..i + |pattern|] == pattern
  }

  /** The first occurrence, as `str::find` reports it. */
  function Find(s: string, pattern: string): (r: Option<nat>)
    ensures r.Some? ==> r.value + |pattern| <= |s|
    ensures r.Some? ==> OccursAt(s, pattern, r.value) && forall i | 0 <= i < r.value :: !OccursAt(s, pattern, i)
    ensures r.None? ==> forall i :: !OccursAt(s, pattern, i)
  {
    if OccursAt(s, pattern, 0) then Some(0)
    else if s == "" then None
    else
      var r := Find(s[1..], pattern);
      assert forall i | 1 <= i && OccursAt(s, pattern, i) :: OccursAt(s[1..], pattern, i - 1) by {
        forall i | 1 <= i && OccursAt(s, pattern, i)
          ensures OccursAt(s[1..], pattern, i - 1)
        {
          assert s[1..][i - 1..i - 1 + |pattern|] == s[i..i + |pattern|];
        }
      }
      assert r.Some? ==> OccursAt(s, pattern, r.value + 1) by {
        if r.Some? {
          assert s[1..][r.value..r.value + |pattern|] == s[r.value + 1..r.value + 1 + |pattern|];
        }
      }
      if r.Some? then Some(r.value + 1) else None
  }

  /** Nothing in front of a pattern hides it or makes one up, if its first character does not return in it. */
  lemma FindsFirst(front: string, pattern: string, behind: string)
    requires pattern != "" && Find(front, pattern).None?
    requires forall i | 1 <= i < |pattern| :: pattern[i] != pattern[0]
    ensures Find(front + pattern + behind, pattern) == Some(|front|)
  {
    var s := front + pattern + behind;
    assert OccursAt(s, pattern, |front|) by {
      assert s[|front|..|front| + |pattern|] == pattern;
    }
    forall i | 0 <= i < |front|
      ensures !OccursAt(s, pattern, i)
    {
      if i + |pattern| <= |front| {
        assert s[i..i + |pattern|] == front[i..i + |pattern|];
        assert !OccursAt(front, pattern, i);
      } else {
        var j := |front| - i;
        assert s[i..i + |pattern|][j] == s[|front|] == pattern[0] != pattern[j];
      }
    }
  }

  // The names of fields.

  function NormalizeChar(c: char): char {
    if c == ' ' then '_' else AsciiLower(c)
  }

  function NormalizeDataKey(name: string): (r: string)
    ensures |r| == |Trim(name)| && forall i | 0 <= i < |r| :: r[i] == NormalizeChar(Trim(name)[i])
  {
    var t := Trim(name);
    seq(|t|, i requires 0 <= i < |t| => NormalizeChar(t[i]))
  }

  lemma NormalizeCharKeeps(c: char)
    ensures NormalizeChar(NormalizeChar(c)) == NormalizeChar(c)
    ensures NormalizeChar(c) != ' ' && !('A' <= NormalizeChar(c) <= 'Z')
    ensures !IsWhitespace(c) ==> !IsWhitespace(NormalizeChar(c))
  {
  }

  /** A blank becomes `_`, a capital its own small letter, and everything else stays. */
  lemma NormalizedChars(name: string, i: nat)
    requires i < |Trim(name)|
    ensures var (c, n) := (Trim(name)[i], NormalizeDataKey(name)[i]);
      if c == ' ' then n == '_'
      else if 'A' <= c <= 'Z' then 'a' <= n <= 'z' && n - 'a' == c - 'A'
      else n == c
  {
    hide Trim;
  }

  /** A normalised name is left alone: it holds no blank and no capital, and nothing to trim. */
  lemma NormalizeIsStable(name: string)
    ensures NormalizeDataKey(NormalizeDataKey(name)) == NormalizeDataKey(name)
    ensures forall i | 0 <= i < |NormalizeDataKey(name)| ::
      NormalizeDataKey(name)[i] != ' ' && !('A' <= NormalizeDataKey(name)[i] <= 'Z')
  {
    hide NormalizeChar, IsWhitespace, Trim;
    var (t, n) := (Trim(name), NormalizeDataKey(name));
    forall i | 0 <= i < |n|
      ensures n[i] == NormalizeChar(t[i]) && NormalizeChar(n[i]) == n[i]
      ensures n[i] != ' ' && !('A' <= n[i] <= 'Z') && (!IsWhitespace(t[i]) ==> !IsWhitespace(n[i]))
    {
      NormalizeCharKeeps(t[i]);
    }
    if n != "" {
      TrimTakesPadding("", n, "");
      assert "" + n + "" == n;
    } else {
      assert Trim("") == "" by {
        TrimOfNothing();
      }
    }
  }

  // The scanner.

  const OPEN_PREFIX := "<Data Name="
  const CLOSE := "</Data>"

  type Fields = seq<(string, string)>

  /** One round of the scan: what is left to scan, and the field it found, if any. */
  datatype Round = Stop | Next(rest: string, field: Option<(string, string)>)

  function ScanOne(s: string): (r: Round)
    ensures r.Next? ==> |r.rest| < |s|
  {
    var off := Find(s, OPEN_PREFIX);
    if off.None? then Stop else AfterPrefix(s[off.value + |OPEN_PREFIX|..])
  }

  function AfterPrefix(s: string): (r: Round)
    ensures r.Next? ==> |r.rest| <= |s|
  {
    if s == "" then Stop
    else if s[0] != '"' && s[0] != '\'' then Next(s, None)
    else
      var nameEnd := Find(s[1..], [s[0]]);
      if nameEnd.None? then Stop else AfterName(s[1..][..nameEnd.value], s[1..][nameEnd.value + 1..])
  }

  function AfterName(name: string, s: string): (r: Round)
    ensures r.Next? ==> |r.rest| <= |s|
  {
    var tagEnd := Find(s, ">");
    if tagEnd.None? then Stop else AfterTag(name, s[tagEnd.value + 1..])
  }

  function AfterTag(name: string, s: string): (r: Round)
    ensures r.Next? ==> |r.rest| <= |s|
  {
    var valEnd := Find(s, CLOSE);
    if valEnd.None? then Stop
    else
      var value := Trim(s[..valEnd.value]);
      Next(s[valEnd.value + |CLOSE|..],
           if value == "" then None else Some((NormalizeDataKey(name), DecodeXmlEntities(value))))
  }

  function Scan(s: string): Fields
    decreases |s|
  {
    match ScanOne(s)
    case Stop => []
    case Next(rest, field) => (if field.Some? then [field.value] else []) + Scan(rest)
  }

  lemma ScanNext(s: string, out: Fields)
    ensures out + Scan(s) == match ScanOne(s)
      case Stop => out
      case Next(rest, None) => out + Scan(rest)
      case Next(rest, Some(field)) => out + [field] + Scan(rest)
    ensures ScanOne(s).Next? ==> |ScanOne(s).rest| < |s|
  {
    hide ScanOne;
    match ScanOne(s)
    case Stop =>
      assert out + [] == out;
    case Next(rest, None) =>
      assert [] + Scan(rest) == Scan(rest);
    case Next(rest, Some(field)) =>
      assert out + ([field] + Scan(rest)) == out + [field] + Scan(rest);
  }

  lemma ScanFinds(s: string)
    ensures var off := Find(s, OPEN_PREFIX);
      if off.None? then ScanOne(s) == Stop
      else
        var rest := s[off.value + |OPEN_PREFIX|..];
        ScanOne(s) == if rest == "" then Stop
                      else if rest[0] != '"' && rest[0] != '\'' then Next(rest, None)
                      else AfterPrefix(rest)
  {
    hide Find, AfterName;
  }

  /** The part of the loop body that walks through one element, from behind its quote. */
  method TakeElement(quote: char, behind: string) returns (next: Round)
    requires quote == '"' || quote == '\''
    ensures next == AfterPrefix([quote] + behind)
  {
    hide NormalizeDataKey, DecodeXmlEntities, Trim, Find, OccursAt;
    ghost var s := [quote] + behind;
    assert s[1..] == behind;
    var rest := behind;
    var nameEnd := Find(rest, [quote]);
    if nameEnd.None? {
      return Stop;
    }
    var name := rest[..nameEnd.value];
    rest := rest[nameEnd.value + 1..];
    assert AfterPrefix(s) == AfterName(name, rest);
    hide AfterPrefix;
    var tagEnd := Find(rest, ">");
    if tagEnd.None? {
      return Stop;
    }
    rest := rest[tagEnd.value + 1..];
    assert AfterPrefix(s) == AfterTag(name, rest);
    hide AfterName;
    var valEnd := Find(rest, CLOSE);
    if valEnd.None? {
      return Stop;
    }
    var value := Trim(rest[..valEnd.value]);
    rest := rest[valEnd.value + |CLOSE|..];
    if value == "" {
      return Next(rest, None);
    }
    return Next(rest, Some((NormalizeDataKey(name), DecodeXmlEntities(value))));
  }

  method ScanDataFields(xml: string) returns (out: Fields)
    ensures out == Scan(xml)
  {
    hide Find, OccursAt, Scan, ScanOne, AfterPrefix;
    out := [];
    var rest := xml;
    while true
      invariant out + Scan(rest) == Scan(xml)
      decreases |rest|
    {
      ScanNext(rest, out);
      ScanFinds(rest);
      var off := Find(rest, OPEN_PREFIX);
      if off.None? {
        break;
      }
      rest := rest[off.value + |OPEN_PREFIX|..];
      if rest == "" {
        break;
      }
      var quote := rest[0];
      if quote != '"' && quote != '\'' {
        continue;
      }
      assert rest == [quote] + rest[1..];
      var next := TakeElement(quote, rest[1..]);
      if next.Stop? {
        break;
      }
      rest := next.rest;
      if next.field.Some? {
        out := out + [next.field.value];
      }
    }
  }

  // Rendering, and reading it back.

  /** A field as it stands in the XML: the quote, the name, what may follow it in the tag, and the raw value. */
  datatype Element = Element(quote: char, name: string, attributes: string, value: string)

  predicate IsElement(e: Element) {
    && (e.quote == '"' || e.quote == '\'')
    && e.quote !in e.name
    && '>' !in e.attributes
    && Find(e.value, "</Data>").None?
  }

  function Render(e: Element): string {
    "<Data Name=" + [e.quote] + e.name + [e.quote] + e.attributes + ">" + e.value + "</Data>"
  }

  function FieldOf(e: Element): Fields {
    var value := Trim(e.value);
    if value == "" then [] else [(NormalizeDataKey(e.name), DecodeXmlEntities(value))]
  }

  /** Each element with what stands in front of it. */
  function Document(parts: seq<(string, Element)>): string {
    if parts == [] then "" else parts[0].0 + Render(parts[0].1) + Document(parts[1..])
  }

  function FieldsOf(parts: seq<(string, Element)>): Fields {
    if parts == [] then [] else FieldOf(parts[0].1) + FieldsOf(parts[1..])
  }

  predicate IsDocument(parts: seq<(string, Element)>) {
    forall i | 0 <= i < |parts| :: Find(parts[i].0, "<Data Name=").None? && IsElement(parts[i].1)
  }

  lemma FindsChar(front: string, c: char, behind: string)
    requires c !in front
    ensures Find(front + [c] + behind, [c]) == Some(|front|)
  {
    forall i | 0 <= i
      ensures !OccursAt(front, [c], i)
    {
      if i < |front| {
        assert front[i..i + 1][0] == front[i] && front[i] in front;
      }
    }
    FindsFirst(front, [c], behind);
  }

  lemma AfterTagOf(e: Element, more: string)
    requires IsElement(e)
    ensures AfterTag(e.name, e.value + CLOSE + more)
         == Next(more, if FieldOf(e) == [] then None else Some(FieldOf(e)[0]))
  {
    hide Find, Trim, NormalizeDataKey, DecodeXmlEntities;
    FindsFirst(e.value, CLOSE, more);
    var s := e.value + CLOSE + more;
    assert s[..|e.value|] == e.value && s[|e.value| + |CLOSE|..] == more;
  }

  lemma AfterNameOf(name: string, attributes: string, more: string)
    requires '>' !in attributes
    ensures AfterName(name, attributes + ">" + more) == AfterTag(name, more)
  {
    hide Find, AfterTag;
    FindsChar(attributes, '>', more);
    assert (attributes + ">" + more)[|attributes| + 1..] == more;
  }

  lemma AfterPrefixOf(quote: char, name: string, more: string)
    requires (quote == '"' || quote == '\'') && quote !in name
    ensures AfterPrefix([quote] + name + [quote] + more) == AfterName(name, more)
  {
    hide Find, AfterName;
    var s := [quote] + name + [quote] + more;
    assert s[1..] == name + [quote] + more;
    FindsChar(name, quote, more);
    assert s[1..][..|name|] == name && s[1..][|name| + 1..] == more;
  }

  lemma ScanOneOf(filler: string, more: string)
    requires Find(filler, OPEN_PREFIX).None?
    ensures ScanOne(filler + OPEN_PREFIX + more) == AfterPrefix(more)
  {
    hide Find, AfterPrefix;
    FindsFirst(filler, OPEN_PREFIX, more);
    assert (filler + OPEN_PREFIX + more)[|filler| + |OPEN_PREFIX|..] == more;
  }

  lemma RenderParts(filler: string, e: Element, more: string)
    ensures filler + Render(e) + more
         == filler + OPEN_PREFIX + ([e.quote] + e.name + [e.quote] + (e.attributes + ">" + (e.value + CLOSE + more)))
  {
    var (p, q, a, g, v, c) := (OPEN_PREFIX, [e.quote] + e.name + [e.quote], e.attributes, ">", e.value, CLOSE);
    assert Render(e) == p + q + a + g + v + c;
    Regroup(filler, p, q, a, g, v, c, more);
  }

  lemma Regroup(f: string, p: string, q: string, a: string, g: string, v: string, c: string, m: string)
    ensures f + (p + q + a + g + v + c) + m == f + p + (q + (a + g + (v + c + m)))
  {
    assert a + g + (v + c + m) == a + g + v + c + m;
    assert q + (a + g + v + c + m) == q + a + g + v + c + m;
  }

  lemma ScanOfElement(filler: string, e: Element, more: string)
    requires Find(filler, OPEN_PREFIX).None? && IsElement(e)
    ensures ScanOne(filler + Render(e) + more)
         == Next(more, if FieldOf(e) == [] then None else Some(FieldOf(e)[0]))
  {
    var r3 := e.value + CLOSE + more;
    var r2 := e.attributes + ">" + r3;
    var r1 := [e.quote] + e.name + [e.quote] + r2;
    RenderParts(filler, e, more);
    hide Find, FieldOf, ScanOne, AfterPrefix, AfterName, AfterTag, Render;
    ScanOneOf(filler, r1);
    AfterPrefixOf(e.quote, e.name, r2);
    AfterNameOf(e.name, e.attributes, r3);
    AfterTagOf(e, more);
  }

  /**
   Scanning undoes rendering: whatever stands between the elements, and whichever quotes they use, the fields
   come back in order, each with its name normalised and its value trimmed and decoded, the blank ones left out.
   */
  lemma {:induction false} ScanUndoesRender(parts: seq<(string, Element)>, tail: string)
    requires IsDocument(parts) && Find(tail, "<Data Name=").None?
    ensures Scan(Document(parts) + tail) == FieldsOf(parts)
  {
    hide Find, Render, FieldOf, ScanOne, IsElement;
    if parts == [] {
      assert Document(parts) + tail == tail;
      NothingToScan(tail);
    } else {
      var more := Document(parts[1..]) + tail;
      assert Document(parts) + tail == parts[0].0 + Render(parts[0].1) + more;
      ScanOfElement(parts[0].0, parts[0].1, more);
      ScanUndoesRender(parts[1..], tail);
      AtMostOneField(parts[0].1);
    }
  }

  lemma NothingToScan(tail: string)
    requires Find(tail, OPEN_PREFIX).None?
    ensures ScanOne(tail) == Stop
  {
  }

  lemma AtMostOneField(e: Element)
    ensures FieldOf(e) == [] || FieldOf(e) == [FieldOf(e)[0]]
  {
  }

  /** A name that is not quoted is skipped, and the scan goes on right behind the opening. */
  lemma UnquotedIsSkipped(filler: string, more: string)
    requires Find(filler, "<Data Name=").None? && more != "" && more[0] != '"' && more[0] != '\''
    ensures Scan(filler + "<Data Name=" + more) == Scan(more)
  {
    ScanOneOf(filler, more);
    hide ScanOne, Find;
    assert [] + Scan(more) == Scan(more);
  }

  /** An element that is cut off, in its name, in its tag or in its value, gives no field, and nothing else is scanned. */
  lemma CutOffEndsTheScan(filler: string, quote: char, name: string, attributes: string, value: string)
    requires Find(filler, "<Data Name=").None? && (quote == '"' || quote == '\'') && quote !in name
    requires '>' !in attributes && Find(value, "</Data>").None?
    ensures Scan(filler + "<Data Name=") == []
    ensures Scan(filler + "<Data Name=" + ([quote] + name)) == []
    ensures Scan(filler + "<Data Name=" + ([quote] + name + [quote] + attributes)) == []
    ensures Scan(filler + "<Data Name=" + ([quote] + name + [quote] + (attributes + ">" + value))) == []
  {
    assert filler + "<Data Name=" + "" == filler + "<Data Name=";
    ScanOneOf(filler, "");
    ScanOneOf(filler, [quote] + name);
    ScanOneOf(filler, [quote] + name + [quote] + attributes);
    ScanOneOf(filler, [quote] + name + [quote] + (attributes + ">" + value));
    hide ScanOne;
    AbsentWithoutItsStart(name, [quote]);
    assert ([quote] + name)[1..] == name;
    AfterPrefixOf(quote, name, attributes);
    AfterPrefixOf(quote, name, attributes + ">" + value);
    AbsentWithoutItsStart(attributes, ">");
    AfterNameOf(name, attributes, value);
    hide Find;
  }

  /** A plain value, trimmed and without an ampersand, comes back as it is, whatever white space surrounds it. */
  lemma PlainValueComesBack(e: Element, before: string, value: string, after: string)
    requires e.value == before + value + after && IsBlank(before) && IsBlank(after)
    requires value != "" && IsTrimmed(value) && '&' !in value
    ensures FieldOf(e) == [(NormalizeDataKey(e.name), value)]
  {
    TrimTakesPadding(before, value, after);
  }

  /** A value escaped by the rules of XML comes back unless it spells out an entity. */
  lemma EscapedValueComesBack(e: Element, value: string)
    requires e.value == Escape(value) && Escape(value) != "" && IsTrimmed(Escape(value))
    ensures FieldOf(e) == [(NormalizeDataKey(e.name), value)]
       <==> !Contains(value, "&lt;") && !Contains(value, "&gt;") && !Contains(value, "&quot;") && !Contains(value, "&apos;")
  {
    hide DecodeXmlEntities, Escape, Contains;
    TrimTakesPadding("", e.value, "");
    assert "" + e.value + "" == e.value;
    DecodeUndoesEscapeIf(value);
  }

  // The event id.

  /** A number in decimal, without sign. */
  function ParseDigits(s: string): Option<nat> {
    if s == "" || !('0' <= s[|s| - 1] <= '9') then None
    else
      var d := s[|s| - 1] as int - 48;
      if |s| == 1 then Some(d)
      else
        var front := ParseDigits(s[..|s| - 1]);
        if front.None? then None else Some(10 * front.value + d)
  }

  /** `str::parse::<u32>`: a plus sign is allowed, what does not fit is not. */
  function ParseU32(s: string): Option<nat> {
    var n := ParseDigits(if |s| > 1 && s[0] == '+' then s[1..] else s);
    if n.Some? && n.value >= 0x1_0000_0000 then None else n
  }

  lemma {:induction false} DigitsParse(s: string)
    ensures ParseDigits(s).Some? <==> s != "" && IsDigits(s)
    ensures s != "" && IsDigits(s) ==> ParseDigits(s) == Some(DecimalValue(s))
  {
    if s != "" && '0' <= s[|s| - 1] <= '9' {
      var front := s[..|s| - 1];
      assert s == front + [s[|s| - 1]];
      if front != "" {
        DigitsParse(front);
      }
    }
  }

  /** What parses as an id: digits, with or without a plus sign, that stand for a number below 2^32. */
  lemma ParsesExactlyWhen(s: string, n: nat)
    ensures ParseU32(s) == Some(n) <==>
      exists digits :: (s == digits || s == "+" + digits)
                       && digits != "" && IsDigits(digits) && DecimalValue(digits) == n && n < 0x1_0000_0000
  {
    var number := if |s| > 1 && s[0] == '+' then s[1..] else s;
    DigitsParse(number);
    if ParseU32(s) == Some(n) {
      assert s == number || s == "+" + number;
    }
    if digits :| (s == digits || s == "+" + digits)
                 && digits != "" && IsDigits(digits) && DecimalValue(digits) == n && n < 0x1_0000_0000 {
      assert IsDigits(digits) && '0' <= digits[0] <= '9';
      assert number == digits;
    }
  }

  const ID_PREFIX := "<EventID"
  const ID_CLOSE := "</EventID>"

  function ScanEventId(xml: string): Option<nat> {
    var start := Find(xml, ID_PREFIX);
    if start.None? then None else IdInElement(xml[start.value..])
  }

  function IdInElement(s: string): Option<nat> {
    var tagEnd := Find(s, ">");
    if tagEnd.None? then None else IdInText(s[tagEnd.value + 1..])
  }

  function IdInText(s: string): Option<nat> {
    var end := Find(s, ID_CLOSE);
    if end.None? then None else ParseU32(Trim(s[..end.value]))
  }

  lemma {:induction false} ParseOfDecimal(n: nat)
    ensures ParseDigits(Decimal(n)) == Some(n)
    ensures forall i | 0 <= i < |Decimal(n)| :: '0' <= Decimal(n)[i] <= '9'
  {
    if n >= 10 {
      ParseOfDecimal(n / 10);
      var s := Decimal(n);
      assert s[..|s| - 1] == Decimal(n / 10);
    }
  }

  lemma AbsentWithoutItsStart(s: string, pattern: string)
    requires pattern != "" && pattern[0] !in s
    ensures Find(s, pattern).None?
  {
    forall i | 0 <= i
      ensures !OccursAt(s, pattern, i)
    {
      if i + |pattern| <= |s| {
        assert s[i..i + |pattern|][0] == s[i] && s[i] in s;
      }
    }
  }

  /** How XML writes an event id. */
  function RenderEventId(attributes: string, content: string): string {
    "<EventID" + attributes + ">" + content + "</EventID>"
  }

  lemma IdOfText(before: string, n: nat, after: string, more: string)
    requires IsBlank(before) && IsBlank(after) && n < 0x1_0000_0000
    ensures IdInText(before + Decimal(n) + after + ID_CLOSE + more) == Some(n)
  {
    hide Find, OccursAt, Trim, ParseDigits, Decimal;
    var text := before + Decimal(n) + after;
    ParseOfDecimal(n);
    BlankHasNoBracket(before);
    BlankHasNoBracket(after);
    AbsentWithoutItsStart(text, ID_CLOSE);
    FindsFirst(text, ID_CLOSE, more);
    assert (text + ID_CLOSE + more)[..|text|] == text;
    DigitsAreTrimmed(Decimal(n));
    TrimTakesPadding(before, Decimal(n), after);
  }

  lemma IdOfElement(attributes: string, more: string)
    requires '>' !in attributes
    ensures IdInElement(ID_PREFIX + attributes + ">" + more) == IdInText(more)
  {
    hide Find, OccursAt, IdInText;
    var front := ID_PREFIX + attributes;
    FindsChar(front, '>', more);
    assert (front + ">" + more)[|front| + 1..] == more;
  }

  lemma IdOfDocument(filler: string, attributes: string, more: string)
    requires Find(filler, ID_PREFIX).None?
    ensures ScanEventId(filler + ID_PREFIX + more) == IdInElement(ID_PREFIX + more)
  {
    hide Find, OccursAt, IdInElement;
    FindsFirst(filler, ID_PREFIX, more);
    assert (filler + ID_PREFIX + more)[|filler|..] == ID_PREFIX + more;
  }

  /** The first event id that stands in the text is found, whatever the attributes of its tag and the space in it. */
  lemma EventIdComesBack(filler: string, attributes: string, before: string, n: nat, after: string, more: string)
    requires Find(filler, "<EventID").None? && '>' !in attributes && IsBlank(before) && IsBlank(after)
    requires n < 0x1_0000_0000
    ensures ScanEventId(filler + RenderEventId(attributes, before + Decimal(n) + after) + more) == Some(n)
  {
    hide ScanEventId, IdInElement, IdInText;
    var (p, c, text) := (ID_PREFIX, ID_CLOSE, before + Decimal(n) + after);
    var s := text + c + more;
    assert filler + (p + attributes + ">" + text + c) + more == filler + p + (attributes + ">" + s);
    IdOfDocument(filler, attributes, attributes + ">" + s);
    assert p + (attributes + ">" + s) == p + attributes + ">" + s;
    IdOfElement(attributes, s);
    IdOfText(before, n, after, more);
  }

  lemma BlankHasNoBracket(s: string)
    requires IsBlank(s)
    ensures '<' !in s
  {
  }

  lemma DigitsAreTrimmed(s: string)
    requires s != "" && forall i | 0 <= i < |s| :: '0' <= s[i] <= '9'
    ensures IsTrimmed(s)
  {
  }

  // Enriching a payload.

  datatype Json = Text(text: string) | Number(n: nat) | Other

  type Payload = map<string, Json>

  function WithEventId(payload: Payload, xml: string): Payload {
    var id := ScanEventId(xml);
    if "event_id" !in payload && id.Some? then payload["event_id" := Number(id.value)] else payload
  }

  /** Every field under a new name is added, the first of each name; everything that was there stays as it was. */
  ghost predicate Adds(before: Payload, fields: Fields, after: Payload) {
    && (forall k | k in before :: k in after && after[k] == before[k])
    && (forall k | k in after && k !in before :: exists i :: 0 <= i < |fields| && fields[i].0 == k)
    && (forall i | 0 <= i < |fields| :: fields[i].0 in after)
    && (forall i | 0 <= i < |fields| && fields[i].0 !in before && (forall j | 0 <= j < i :: fields[j].0 != fields[i].0)
          :: after[fields[i].0] == Text(fields[i].1))
  }

  method EnrichWithXmlDataFields(payload: Payload) returns (enriched: Payload)
    ensures forall k | k in payload :: k in enriched && enriched[k] == payload[k]
    ensures "raw_xml" in payload && payload["raw_xml"].Text? ==>
      var xml := payload["raw_xml"].text;
      Adds(WithEventId(payload, xml), Scan(xml), enriched)
    ensures "raw_xml" in payload && payload["raw_xml"].Text? && "event_id" !in payload ==>
      var id := ScanEventId(payload["raw_xml"].text);
      id.Some? ==> "event_id" in enriched && enriched["event_id"] == Number(id.value)
    ensures !("raw_xml" in payload && payload["raw_xml"].Text?) ==> enriched == payload
  {
    hide ScanEventId, Scan, Adds;
    if "raw_xml" !in payload || !payload["raw_xml"].Text? {
      return payload;
    }
    var xml := payload["raw_xml"].text;
    enriched := payload;
    if "event_id" !in enriched {
      var id := ScanEventId(xml);
      if id.Some? {
        enriched := enriched["event_id" := Number(id.value)];
      }
    }
    ghost var base := enriched;
    var fields := ScanDataFields(xml);
    AddsNothing(base);
    var i := 0;
    while i < |fields|
      invariant 0 <= i <= |fields|
      invariant Adds(base, fields[..i], enriched)
    {
      var (key, value) := fields[i];
      ghost var was := enriched;
      if key !in enriched {
        enriched := enriched[key := Text(value)];
      }
      AddsNext(base, fields, i, was, enriched);
      i := i + 1;
    }
    assert fields[..i] == fields;
    AddsKeeps(base, fields, enriched);
  }

  lemma AddsNothing(base: Payload)
    ensures Adds(base, [], base)
  {
  }

  lemma AddsKeeps(base: Payload, fields: Fields, now: Payload)
    requires Adds(base, fields, now)
    ensures forall k | k in base :: k in now && now[k] == base[k]
  {
  }

  lemma AddsNext(base: Payload, fields: Fields, i: nat, was: Payload, now: Payload)
    requires i < |fields| && Adds(base, fields[..i], was)
    requires now == if fields[i].0 in was then was else was[fields[i].0 := Text(fields[i].1)]
    ensures Adds(base, fields[..i + 1], now)
  {
    assert fields[..i + 1] == fields[..i] + [fields[i]];
    if fields[i].0 in was {
      AddsOld(base, fields[..i], fields[i], was);
    } else {
      AddsNew(base, fields[..i], fields[i], was);
    }
  }

  lemma AddsOld(base: Payload, fields: Fields, f: (string, string), was: Payload)
    requires Adds(base, fields, was) && f.0 in was
    ensures Adds(base, fields + [f], was)
  {
    var more := fields + [f];
    assert more[|fields|] == f && forall j | 0 <= j < |fields| :: more[j] == fields[j];
    forall k | k in was && k !in base
      ensures exists j :: 0 <= j < |fields| && more[j].0 == k
    {
      var j :| 0 <= j < |fields| && fields[j].0 == k;
      assert more[j].0 == k;
    }
    forall j | 0 <= j < |more| && more[j].0 !in base && (forall h | 0 <= h < j :: more[h].0 != more[j].0)
      ensures was[more[j].0] == Text(more[j].1)
    {
      if j < |fields| {
        assert forall h | 0 <= h < j :: fields[h].0 != fields[j].0;
      }
    }
  }

  lemma AddsNew(base: Payload, fields: Fields, f: (string, string), was: Payload)
    requires Adds(base, fields, was) && f.0 !in was
    ensures Adds(base, fields + [f], was[f.0 := Text(f.1)])
  {
    var (more, now) := (fields + [f], was[f.0 := Text(f.1)]);
    assert more[|fields|] == f && forall j | 0 <= j < |fields| :: more[j] == fields[j];
    forall k | k in was && k !in base
      ensures exists j :: 0 <= j < |more| && more[j].0 == k
    {
      var j :| 0 <= j < |fields| && fields[j].0 == k;
      assert more[j].0 == k;
    }
    forall j | 0 <= j < |more| && more[j].0 !in base && (forall h | 0 <= h < j :: more[h].0 != more[j].0)
      ensures more[j].0 in now && now[more[j].0] == Text(more[j].1)
    {
      if j < |fields| {
        assert forall h | 0 <= h < j :: fields[h].0 != fields[j].0;
      }
    }
  }
}
