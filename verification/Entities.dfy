/**
 `decode_xml_entities` of src/plugin/server.rs: five replacements, one after the other, the ampersand first.
 */
module Entities {
  import opened Text

  /** Left to right, as `str::replace` does it. */
  function Replace(s: string, pattern: string, text: string): (r: string)
    requires pattern != ""
    ensures |text| <= |pattern| ==> |r| <= |s|
  {
    if s == "" then ""
    else if StartsWith(s, pattern) then text + Replace(s[|pattern|..], pattern, text)
    else [s[0]] + Replace(s[1..], pattern, text)
  }

  function DecodeXmlEntities(s: string): string {
    if '&' !in s then s
    else
      var s1 := Replace(s, "&amp;", "&");
      var s2 := Replace(s1, "&lt;", "<");
      var s3 := Replace(s2, "&gt;", ">");
      var s4 := Replace(s3, "&quot;", "\"");
      Replace(s4, "&apos;", "'")
  }

  predicate Contains(s: string, pattern: string) {
    StartsWith(s, pattern) || (s != "" && Contains(s[1..], pattern))
  }

  /** A replacement does nothing to a text without the pattern, and a shorter one shows. */
  lemma {:induction false} ReplaceChanges(s: string, pattern: string, text: string)
    requires |text| < |pattern|
    ensures if Contains(s, pattern) then |Replace(s, pattern, text)| < |s| else Replace(s, pattern, text) == s
  {
    if s != "" && !StartsWith(s, pattern) {
      ReplaceChanges(s[1..], pattern, text);
    }
  }

  // Escaping, and what decoding makes of it.

  const SPECIAL: set<char> := {'<', '>', '"', '\''}

  function Entity(c: char): string
    requires c in SPECIAL
  {
    if c == '<' then "&lt;" else if c == '>' then "&gt;" else if c == '"' then "&quot;" else "&apos;"
  }

  /** Each character of `set` written as its entity. */
  function Escaped(chars: set<char>, s: string): string
    requires chars <= SPECIAL
  {
    if s == "" then ""
    else (if s[0] in chars then Entity(s[0]) else [s[0]]) + Escaped(chars, s[1..])
  }

  function EscapeChar(c: char): (r: string)
    ensures |r| >= 1 && (if c == '&' || c in SPECIAL then r[0] == '&' else r == [c])
  {
    if c == '&' then "&amp;" else if c in SPECIAL then Entity(c) else [c]
  }

  /** How XML writes a text. */
  function Escape(s: string): string {
    if s == "" then "" else EscapeChar(s[0]) + Escape(s[1..])
  }

  /** Where the pattern does not start, its replacement goes past. */
  lemma {:induction false} ReplaceSkips(front: string, rest: string, pattern: string, text: string)
    requires pattern != ""
    requires forall i | 0 <= i < |front| :: !StartsWith(front[i..] + rest, pattern)
    ensures Replace(front + rest, pattern, text) == front + Replace(rest, pattern, text)
  {
    if front == "" {
      assert front + rest == rest;
    } else {
      assert front[0..] == front;
      assert (front + rest)[1..] == front[1..] + rest;
      assert forall i | 0 <= i < |front| - 1 :: front[1..][i..] == front[i + 1..];
      ReplaceSkips(front[1..], rest, pattern, text);
    }
  }

  lemma ReplaceHits(rest: string, pattern: string, text: string)
    requires pattern != ""
    ensures Replace(pattern + rest, pattern, text) == text + Replace(rest, pattern, text)
  {
    assert (pattern + rest)[|pattern|..] == rest;
  }

  /** One entity does not start inside or at another. */
  lemma EntityIsSkipped(entity: string, rest: string, pattern: string, text: string)
    requires entity in {"&lt;", "&gt;", "&quot;", "&apos;"} && pattern in {"&amp;", "&lt;", "&gt;", "&quot;", "&apos;"}
    requires entity != pattern
    ensures Replace(entity + rest, pattern, text) == entity + Replace(rest, pattern, text)
  {
    forall i | 0 <= i < |entity|
      ensures !StartsWith(entity[i..] + rest, pattern)
    {
      var s := entity[i..] + rest;
      assert s[0] == entity[i];
      if i == 0 {
        assert s[1] == entity[1] && s[2] == entity[2];
      }
    }
    ReplaceSkips(entity, rest, pattern, text);
  }

  lemma CharIsSkipped(c: char, rest: string, pattern: string, text: string)
    requires pattern != "" && !StartsWith([c] + rest, pattern)
    ensures Replace([c] + rest, pattern, text) == [c] + Replace(rest, pattern, text)
  {
    assert [c][0..] == [c];
    ReplaceSkips([c], rest, pattern, text);
  }

  /** The first replacement takes the escaped ampersands back, and leaves the other entities. */
  lemma {:induction false} AmpersandsComeBack(s: string)
    ensures Replace(Escape(s), "&amp;", "&") == Escaped(SPECIAL, s)
  {
    hide Replace;
    if s == "" {
      ReplaceChanges("", "&amp;", "&");
    } else {
      AmpersandsComeBack(s[1..]);
      var (c, rest) := (s[0], Escape(s[1..]));
      if c == '&' {
        ReplaceHits(rest, "&amp;", "&");
      } else if c in SPECIAL {
        EntityIsSkipped(Entity(c), rest, "&amp;", "&");
      } else {
        assert ([c] + rest)[0] == c;
        CharIsSkipped(c, rest, "&amp;", "&");
      }
    }
  }

  lemma {:induction false} EscapedStart(chars: set<char>, s: string, w: string)
    requires chars <= SPECIAL && forall i | 0 <= i < |w| :: w[i] != '&' && w[i] !in SPECIAL
    ensures StartsWith(Escaped(chars, s), w) <==> StartsWith(s, w)
    ensures StartsWith(s, w) ==> Escaped(chars, s)[|w|..] == Escaped(chars, s[|w|..])
  {
    if w != "" && s != "" {
      EscapedStart(chars, s[1..], w[1..]);
      EscapedFirst(chars, s);
      hide Escaped, Entity;
      assert s == [s[0]] + s[1..];
      if s[0] == w[0] {
        PrefixAfterOne(s[0], Escaped(chars, s[1..]), w);
        PrefixAfterOne(s[0], s[1..], w);
      }
    }
  }

  lemma EscapedFirst(chars: set<char>, s: string)
    requires chars <= SPECIAL && s != ""
    ensures Escaped(chars, s) != ""
    ensures s[0] in chars ==> Escaped(chars, s)[0] == '&'
    ensures s[0] !in chars ==> Escaped(chars, s) == [s[0]] + Escaped(chars, s[1..])
  {
  }

  lemma PrefixAfterOne(c: char, s: string, w: string)
    requires w != "" && w[0] == c
    ensures StartsWith([c] + s, w) <==> StartsWith(s, w[1..])
    ensures StartsWith(s, w[1..]) ==> ([c] + s)[|w|..] == s[|w| - 1..]
  {
    if StartsWith([c] + s, w) {
      assert s[..|w| - 1] == ([c] + s)[..|w|][1..];
    }
    if StartsWith(s, w[1..]) {
      assert ([c] + s)[..|w|] == [c] + s[..|w| - 1] == w;
    }
  }

  /** Decoding one entity: the escaped characters come back, and so do those that were spelled out. */
  lemma {:induction false} OneEntityComesBack(chars: set<char>, x: char, s: string)
    requires chars <= SPECIAL && x in chars
    ensures Replace(Escaped(chars, s), Entity(x), [x]) == Escaped(chars - {x}, Replace(s, Entity(x), [x]))
    decreases |s|
  {
    var entity := Entity(x);
    var w := entity[1..];
    assert entity == "&" + w;
    if s == "" {
    } else if StartsWith(s, entity) {
      SpelledOut(chars, x, s);
    } else {
      OneEntityComesBack(chars, x, s[1..]);
      var (c, rest) := (s[0], Escaped(chars, s[1..]));
      hide Replace;
      CharIsSkippedIn(s, entity, [x]);
      if c == x {
        ReplaceHits(rest, entity, [x]);
      } else if c in chars {
        EntityIsSkipped(Entity(c), rest, entity, [x]);
      } else {
        NotSpelledOut(chars, x, s);
        CharIsSkipped(c, rest, entity, [x]);
      }
      EscapedCons(chars - {x}, c, Replace(s[1..], entity, [x]));
    }
  }

  lemma CharIsSkippedIn(s: string, pattern: string, text: string)
    requires pattern != "" && s != "" && !StartsWith(s, pattern)
    ensures Replace(s, pattern, text) == [s[0]] + Replace(s[1..], pattern, text)
  {
  }

  lemma EscapedCons(chars: set<char>, c: char, s: string)
    requires chars <= SPECIAL
    ensures Escaped(chars, [c] + s) == (if c in chars then Entity(c) else [c]) + Escaped(chars, s)
  {
    assert ([c] + s)[1..] == s;
  }

  lemma EntityShape(x: char)
    requires x in SPECIAL
    ensures var (entity, w) := (Entity(x), Entity(x)[1..]);
      entity[0] == '&' && forall i | 0 <= i < |w| :: w[i] != '&' && w[i] !in SPECIAL
  {
  }

  lemma EntityInFront(chars: set<char>, entity: string, s: string)
    requires chars <= SPECIAL && entity != "" && entity[0] == '&' && StartsWith(s, entity)
    requires forall i | 1 <= i < |entity| :: entity[i] != '&' && entity[i] !in SPECIAL
    ensures s == entity + s[|entity|..]
    ensures Escaped(chars, s) == entity + Escaped(chars, s[|entity|..])
  {
    hide Entity;
    var w := entity[1..];
    assert s == ['&'] + s[1..];
    PrefixAfterOne('&', s[1..], entity);
    EscapedStart(chars, s[1..], w);
    EscapedCons(chars, '&', s[1..]);
    PrefixAfterOne('&', Escaped(chars, s[1..]), entity);
    assert s[1..][|w|..] == s[|entity|..];
  }

  lemma SpelledOut(chars: set<char>, x: char, s: string)
    requires chars <= SPECIAL && x in chars && StartsWith(s, Entity(x))
    ensures Replace(Escaped(chars, s), Entity(x), [x]) == Escaped(chars - {x}, Replace(s, Entity(x), [x]))
    decreases |s|, 0
  {
    var entity := Entity(x);
    var rest := s[|entity|..];
    EntityShape(x);
    EntityInFront(chars, entity, s);
    OneEntityComesBack(chars, x, rest);
    hide Escaped, Entity, Replace;
    ReplaceHits(Escaped(chars, rest), entity, [x]);
    ReplaceHits(rest, entity, [x]);
    EscapedCons(chars - {x}, x, Replace(rest, entity, [x]));
  }

  lemma NotSpelledOut(chars: set<char>, x: char, s: string)
    requires chars <= SPECIAL && x in chars && s != "" && s[0] !in chars && !StartsWith(s, Entity(x))
    ensures !StartsWith([s[0]] + Escaped(chars, s[1..]), Entity(x))
  {
    var entity := Entity(x);
    var w := entity[1..];
    if s[0] == '&' {
      EscapedStart(chars, s[1..], w);
      PrefixAfterOne('&', Escaped(chars, s[1..]), entity);
      PrefixAfterOne('&', s[1..], entity);
      assert s == ['&'] + s[1..];
    } else {
      assert ([s[0]] + Escaped(chars, s[1..]))[0] == s[0];
    }
  }

  /** What is left of a text when the four entities it spells out are read as such. */
  function Spelled(s: string): (r: string)
    ensures |r| <= |s|
  {
    Replace(Replace(Replace(Replace(s, "&lt;", "<"), "&gt;", ">"), "&quot;", "\""), "&apos;", "'")
  }

  lemma {:induction false} EscapedNothing(s: string)
    ensures Escaped({}, s) == s
  {
    if s != "" {
      EscapedNothing(s[1..]);
    }
  }

  lemma {:induction false} NothingToEscape(s: string)
    ensures '&' in Escape(s) || (Escape(s) == s && '&' !in s)
  {
    if s != "" {
      NothingToEscape(s[1..]);
      assert Escape(s)[0] == EscapeChar(s[0])[0];
      assert s == [s[0]] + s[1..];
    }
  }

  /** Decoding takes all escaping back, and goes on to decode what the text itself spells out. */
  lemma DecodeOfEscape(s: string)
    ensures DecodeXmlEntities(Escape(s)) == Spelled(s)
  {
    hide Replace, Escaped, Escape;
    AmpersandsComeBack(s);
    OneEntityComesBack({'<', '>', '"', '\''}, '<', s);
    var s1 := Replace(s, "&lt;", "<");
    OneEntityComesBack({'>', '"', '\''}, '>', s1);
    var s2 := Replace(s1, "&gt;", ">");
    OneEntityComesBack({'"', '\''}, '"', s2);
    var s3 := Replace(s2, "&quot;", "\"");
    OneEntityComesBack({'\''}, '\'', s3);
    var s4 := Replace(s3, "&apos;", "'");
    EscapedNothing(s4);
    assert SPECIAL - {'<'} == {'>', '"', '\''};
    assert {'>', '"', '\''} - {'>'} == {'"', '\''};
    assert {'"', '\''} - {'"'} == {'\''};
    assert {'\''} - {'\''} == {};
    if '&' !in Escape(s) {
      NothingToEscape(s);
      NothingSpelled(s);
    }
  }

  lemma {:induction false} NoAmpersand(s: string, pattern: string)
    requires '&' !in s && pattern != "" && pattern[0] == '&'
    ensures !Contains(s, pattern)
  {
    if s != "" {
      assert s[0] in s;
      assert forall c | c in s[1..] :: c in s;
      NoAmpersand(s[1..], pattern);
    }
  }

  lemma NothingSpelled(s: string)
    requires '&' !in s
    ensures Spelled(s) == s
  {
    hide Replace;
    NoAmpersand(s, "&lt;");
    ReplaceChanges(s, "&lt;", "<");
    NothingSpelledNext(s);
  }

  /** Decoding undoes escaping exactly for the texts that do not spell out one of these four entities. */
  lemma DecodeUndoesEscapeIf(s: string)
    ensures DecodeXmlEntities(Escape(s)) == s
       <==> !Contains(s, "&lt;") && !Contains(s, "&gt;") && !Contains(s, "&quot;") && !Contains(s, "&apos;")
  {
    hide Replace, Escape, Contains, DecodeXmlEntities;
    DecodeOfEscape(s);
    ReplaceChanges(s, "&lt;", "<");
    var s1 := Replace(s, "&lt;", "<");
    ReplaceChanges(s1, "&gt;", ">");
    var s2 := Replace(s1, "&gt;", ">");
    ReplaceChanges(s2, "&quot;", "\"");
    var s3 := Replace(s2, "&quot;", "\"");
    ReplaceChanges(s3, "&apos;", "'");
  }

  /** The text of an entity does not survive: it comes back as the character it stands for. */
  lemma EntityTextIsLost()
    ensures Escape("&lt;") == "&amp;lt;" && DecodeXmlEntities(Escape("&lt;")) == "<"
  {
    EscapeOfEntity();
    hide Replace, Escape, DecodeXmlEntities;
    DecodeOfEscape("&lt;");
    assert Replace("&lt;", "&lt;", "<") == "<" by {
      assert "&lt;" == "&lt;" + "" && "<" == "<" + "";
      ReplaceHits("", "&lt;", "<");
      ReplaceChanges("", "&lt;", "<");
    }
    NothingSpelledNext("<");
  }

  lemma EscapeOfEntity()
    ensures Escape("&lt;") == "&amp;lt;"
  {
    assert "&lt;"[1..] == "lt;" && "lt;"[1..] == "t;" && "t;"[1..] == ";" && ";"[1..] == "";
  }

  lemma NothingSpelledNext(s: string)
    requires '&' !in s
    ensures Replace(Replace(Replace(s, "&gt;", ">"), "&quot;", "\""), "&apos;", "'") == s
  {
    hide Replace;
    NoAmpersand(s, "&gt;");
    NoAmpersand(s, "&quot;");
    NoAmpersand(s, "&apos;");
    ReplaceChanges(s, "&gt;", ">");
    ReplaceChanges(s, "&quot;", "\"");
    ReplaceChanges(s, "&apos;", "'");
  }
}
