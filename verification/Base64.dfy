/**
 Base64: the decoder of src/shipper/secret.rs against the encoding of section 4 of RFC 4648.
 */
module Base64 {
  import opened Options

  type Byte = bv8
  type Word = bv32

  const PAD: Byte := 61             // '='

  datatype Result<T> = Ok(value: T) | Err(error: Error)
  datatype Error = BadLength | InvalidByte

  // The encoding, as the RFC describes it: 24-bit groups taken as four 6-bit numbers.

  /** Table 1: A-Z, a-z, 0-9, +, /. */
  function Letter(v: Word): (c: Byte)
    requires v < 64
  {
    if v < 26 then 65 + v as Byte
    else if v < 52 then 71 + v as Byte
    else if v < 62 then v as Byte - 4
    else if v == 62 then 43
    else 47
  }

  function Group(a: Byte, b: Byte, c: Byte): Word {
    ((a as Word) << 16) | ((b as Word) << 8) | (c as Word)
  }

  function Sextet0(g: Word): (v: Word) ensures v < 64 { (g >> 18) & 63 }
  function Sextet1(g: Word): (v: Word) ensures v < 64 { (g >> 12) & 63 }
  function Sextet2(g: Word): (v: Word) ensures v < 64 { (g >> 6) & 63 }
  function Sextet3(g: Word): (v: Word) ensures v < 64 { g & 63 }

  /** The four characters of a group of which `n` bytes are there. */
  function EncodeGroup(g: Word, n: nat): (q: seq<Byte>)
    ensures |q| == 4
  {
    [Letter(Sextet0(g)), Letter(Sextet1(g)),
     if n < 2 then PAD else Letter(Sextet2(g)), if n < 3 then PAD else Letter(Sextet3(g))]
  }

  function Encode(data: seq<Byte>): seq<Byte> {
    if data == [] then []
    else if |data| == 1 then EncodeGroup(Group(data[0], 0, 0), 1)
    else if |data| == 2 then EncodeGroup(Group(data[0], data[1], 0), 2)
    else EncodeGroup(Group(data[0], data[1], data[2]), 3) + Encode(data[3..])
  }

  // The decoder.

  predicate IsAsciiWhitespace(b: Byte) {
    b == 32 || b == 9 || b == 10 || b == 12 || b == 13
  }

  function Cleaned(input: seq<Byte>): (r: seq<Byte>)
    ensures forall i | 0 <= i < |r| :: !IsAsciiWhitespace(r[i])
  {
    if input == [] then []
    else if IsAsciiWhitespace(input[0]) then Cleaned(input[1..])
    else [input[0]] + Cleaned(input[1..])
  }

  /** The number a letter stands for; padding counts as zero. */
  function ValueOf(b: Byte): (r: Option<Word>)
    ensures r.Some? ==> r.value < 64
  {
    if 65 <= b <= 90 then Some((b - 65) as Word)
    else if 97 <= b <= 122 then Some((b - 97 + 26) as Word)
    else if 48 <= b <= 57 then Some((b - 48 + 52) as Word)
    else if b == 43 then Some(62)
    else if b == 47 then Some(63)
    else if b == PAD then Some(0)
    else None
  }

  function Packed(v0: Word, v1: Word, v2: Word, v3: Word): Word {
    (v0 << 18) | (v1 << 12) | (v2 << 6) | v3
  }

  function Low(n: Word): Byte {
    (n & 0xff) as Byte
  }

  function Middle(n: Word): Byte {
    Low(n >> 8)
  }

  function Top(n: Word): Byte {
    Low(n >> 16)
  }

  function Pads(quad: seq<Byte>): (n: nat)
    ensures n <= |quad|
  {
    if quad == [] then 0 else Pads(quad[..|quad| - 1]) + if quad[|quad| - 1] == PAD then 1 else 0
  }

  predicate IsLegal(b: Byte) {
    ValueOf(b).Some?
  }

  predicate AllLegal(s: seq<Byte>) {
    forall i | 0 <= i < |s| :: IsLegal(s[i])
  }

  function SextetAt(q: seq<Byte>, i: nat): (v: Word)
    requires i < |q| && AllLegal(q)
    ensures v < 64
  {
    assert IsLegal(q[i]);
    ValueOf(q[i]).value
  }

  /** The bytes of a group, as many as its padding leaves. */
  function Bytes(n: Word, pads: nat): seq<Byte> {
    if pads == 0 then [Top(n), Middle(n), Low(n)]
    else if pads == 1 then [Top(n), Middle(n)]
    else [Top(n)]
  }

  function DecodeQuad(q: seq<Byte>): seq<Byte>
    requires |q| == 4 && AllLegal(q)
  {
    Bytes(Packed(SextetAt(q, 0), SextetAt(q, 1), SextetAt(q, 2), SextetAt(q, 3)), Pads(q))
  }

  function DecodeQuads(s: seq<Byte>): seq<Byte>
    requires |s| % 4 == 0 && AllLegal(s)
  {
    if s == [] then [] else DecodeQuad(s[..4]) + DecodeQuads(s[4..])
  }

  /** What the decoder makes of a text: exactly the texts of whole quads over the alphabet and the padding are taken. */
  function Decode(input: seq<Byte>): Result<seq<Byte>> {
    var s := Cleaned(input);
    if |s| % 4 != 0 then Err(BadLength)
    else if !AllLegal(s) then Err(InvalidByte)
    else Ok(DecodeQuads(s))
  }

  /** Space, tab, line feed, form feed and carriage return. */
  predicate IsSpace(b: Byte) {
    b in [0x20, 0x09, 0x0a, 0x0c, 0x0d]
  }

  /** A letter A to Z or a to z, a digit, `+`, `/` or `=`. */
  predicate IsOfAlphabet(b: Byte) {
    0x41 <= b <= 0x5a || 0x61 <= b <= 0x7a || 0x30 <= b <= 0x39 || b in [0x2b, 0x2f, 0x3d]
  }

  lemma {:induction false} LegalOrSpace(input: seq<Byte>)
    ensures AllLegal(Cleaned(input)) <==> forall i | 0 <= i < |input| :: IsSpace(input[i]) || IsOfAlphabet(input[i])
  {
    if input != [] {
      LegalOrSpace(input[1..]);
      assert input == [input[0]] + input[1..];
      assert IsLegal(input[0]) <==> IsOfAlphabet(input[0]);
      hide ValueOf, IsOfAlphabet;
      var rest := Cleaned(input[1..]);
      if !IsSpace(input[0]) {
        assert AllLegal([input[0]] + rest) <==> IsLegal(input[0]) && AllLegal(rest) by {
          assert ([input[0]] + rest)[0] == input[0] && ([input[0]] + rest)[1..] == rest;
          assert forall i | 0 <= i < |rest| :: ([input[0]] + rest)[i + 1] == rest[i];
        }
      }
      assert (forall i | 0 <= i < |input| :: IsSpace(input[i]) || IsOfAlphabet(input[i]))
        <==> (IsSpace(input[0]) || IsOfAlphabet(input[0]))
             && forall i | 0 <= i < |input[1..]| :: IsSpace(input[1..][i]) || IsOfAlphabet(input[1..][i]) by {
        assert forall i | 0 <= i < |input[1..]| :: input[1..][i] == input[i + 1];
        assert forall i | 0 < i < |input| :: input[i] == input[1..][i - 1];
      }
    }
  }

  /** Which texts are taken: whole quads over the alphabet, white space aside; and what is wrong with the others. */
  lemma AcceptedExactlyWhen(input: seq<Byte>)
    ensures Decode(input) == Err(BadLength) <==> |Cleaned(input)| % 4 != 0
    ensures Decode(input).Ok? <==>
      |Cleaned(input)| % 4 == 0 && forall i | 0 <= i < |input| :: IsSpace(input[i]) || IsOfAlphabet(input[i])
  {
    LegalOrSpace(input);
    hide AllLegal, IsSpace, IsOfAlphabet;
  }

  lemma {:induction false} CleanedConcat(a: seq<Byte>, b: seq<Byte>)
    ensures Cleaned(a + b) == Cleaned(a) + Cleaned(b)
  {
    if a == [] {
      assert a + b == b;
    } else {
      assert (a + b)[1..] == a[1..] + b;
      CleanedConcat(a[1..], b);
    }
  }

  lemma {:induction false} QuadsConcat(s: seq<Byte>, q: seq<Byte>)
    requires |s| % 4 == 0 && |q| == 4 && AllLegal(s) && AllLegal(q)
    ensures AllLegal(s + q) && DecodeQuads(s + q) == DecodeQuads(s) + DecodeQuad(q)
  {
    hide DecodeQuad;
    if s == [] {
      assert s + q == q && q[..4] == q && q[4..] == [];
    } else {
      assert (s + q)[..4] == s[..4] && (s + q)[4..] == s[4..] + q;
      QuadsConcat(s[4..], q);
      assert DecodeQuad(s[..4]) + (DecodeQuads(s[4..]) + DecodeQuad(q)) == DecodeQuads(s) + DecodeQuad(q);
    }
  }

  lemma PadsOneMore(s: seq<Byte>, b: Byte)
    ensures Pads(s + [b]) == Pads(s) + if b == PAD then 1 else 0
  {
    assert (s + [b])[..|s|] == s;
  }

  method PushBytes(n: Word, pad: nat) returns (out: seq<Byte>)
    ensures out == Bytes(n, pad)
  {
    hide Top, Middle, Low;
    out := [Top(n)];
    if pad < 2 {
      out := out + [Middle(n)];
    }
    if pad < 1 {
      out := out + [Low(n)];
    }
  }

  /** The body of the loop over the quads. */
  method DecodeChunk(chunk: seq<Byte>) returns (three: Option<seq<Byte>>)
    requires |chunk| == 4
    ensures three == if AllLegal(chunk) then Some(DecodeQuad(chunk)) else None
  {
    hide ValueOf, Packed, Bytes, Pads;
    var buf := new Word[4](_ => 0);
    var pad := 0;
    assert Pads([]) == 0 by {
      NoPads();
    }
    assert chunk[..0] == [];
    for i := 0 to 4
      invariant pad == Pads(chunk[..i])
      invariant forall j | 0 <= j < i :: IsLegal(chunk[j]) && ValueOf(chunk[j]) == Some(buf[j])
    {
      var b := chunk[i];
      assert chunk[..i + 1] == chunk[..i] + [b];
      PadsOneMore(chunk[..i], b);
      var v := ValueOf(b);
      if v.None? {
        return None;
      }
      if b == PAD {
        pad := pad + 1;
      }
      buf[i] := v.value;
    }
    assert chunk[..4] == chunk && AllLegal(chunk);
    assert SextetAt(chunk, 0) == buf[0] && SextetAt(chunk, 1) == buf[1];
    assert SextetAt(chunk, 2) == buf[2] && SextetAt(chunk, 3) == buf[3];
    var out := PushBytes(Packed(buf[0], buf[1], buf[2], buf[3]), pad);
    return Some(out);
  }

  lemma NoPads()
    ensures Pads([]) == 0
  {
  }

  method Clean(input: seq<Byte>) returns (cleaned: seq<Byte>)
    ensures cleaned == Cleaned(input)
  {
    cleaned := [];
    for i := 0 to |input|
      invariant cleaned == Cleaned(input[..i])
    {
      assert input[..i + 1] == input[..i] + [input[i]];
      CleanedConcat(input[..i], [input[i]]);
      if !IsAsciiWhitespace(input[i]) {
        cleaned := cleaned + [input[i]];
      }
    }
    assert input[..|input|] == input;
  }

  method B64Decode(input: seq<Byte>) returns (result: Result<seq<Byte>>)
    ensures result == Decode(input)
  {
    hide IsLegal, DecodeQuads, DecodeQuad, Cleaned;
    var cleaned := Clean(input);
    if |cleaned| % 4 != 0 {
      return Err(BadLength);
    }
    var out: seq<Byte> := [];
    var at := 0;
    assert cleaned[..0] == [];
    NoQuads();
    while at < |cleaned|
      invariant 0 <= at <= |cleaned| && at % 4 == 0
      invariant AllLegal(cleaned[..at]) && out == DecodeQuads(cleaned[..at])
    {
      var chunk := cleaned[at..at + 4];
      var three := DecodeChunk(chunk);
      if three.None? {
        assert forall i | 0 <= i < 4 :: chunk[i] == cleaned[at + i];
        return Err(InvalidByte);
      }
      assert cleaned[..at + 4] == cleaned[..at] + chunk;
      QuadsConcat(cleaned[..at], chunk);
      out := out + three.value;
      at := at + 4;
    }
    assert cleaned[..at] == cleaned;
    return Ok(out);
  }

  lemma NoQuads()
    ensures DecodeQuads([]) == []
  {
  }

  // Decoding undoes encoding.

  lemma LetterStandsFor(v: Word)
    requires v < 64
    ensures ValueOf(Letter(v)) == Some(v) && Letter(v) != PAD && !IsAsciiWhitespace(Letter(v))
  {
  }

  lemma PackingUndoesSplitting(a: Byte, b: Byte, c: Byte)
    ensures var g := Group(a, b, c);
      && Packed(Sextet0(g), Sextet1(g), Sextet2(g), Sextet3(g)) == g
      && Top(g) == a && Middle(g) == b && Low(g) == c
  {
  }

  /** Where the group ends early, the missing sextets are the zeros that padding counts as. */
  lemma MissingSextets(a: Byte, b: Byte)
    ensures Sextet2(Group(a, 0, 0)) == 0 && Sextet3(Group(a, 0, 0)) == 0 && Sextet3(Group(a, b, 0)) == 0
  {
  }

  lemma ValuesOfGroup(g: Word, n: nat)
    requires (n < 2 ==> Sextet2(g) == 0) && (n < 3 ==> Sextet3(g) == 0)
    ensures var q := EncodeGroup(g, n);
      && AllLegal(q) && (forall i | 0 <= i < 4 :: !IsAsciiWhitespace(q[i]))
      && SextetAt(q, 0) == Sextet0(g) && SextetAt(q, 1) == Sextet1(g)
      && SextetAt(q, 2) == Sextet2(g) && SextetAt(q, 3) == Sextet3(g)
      && q[0] != PAD && q[1] != PAD && (q[2] == PAD <==> n < 2) && (q[3] == PAD <==> n < 3)
  {
    LetterStandsFor(Sextet0(g));
    LetterStandsFor(Sextet1(g));
    LetterStandsFor(Sextet2(g));
    LetterStandsFor(Sextet3(g));
    PadStandsForZero();
    hide Letter, ValueOf, Sextet0, Sextet1, Sextet2, Sextet3, IsAsciiWhitespace;
    var q := EncodeGroup(g, n);
    assert IsLegal(q[0]) && IsLegal(q[1]) && IsLegal(q[2]) && IsLegal(q[3]);
  }

  lemma QuadOfLetters(a: Byte, b: Byte, c: Byte, n: nat)
    requires 1 <= n <= 3 && (n < 3 ==> c == 0) && (n < 2 ==> b == 0)
    ensures var q := EncodeGroup(Group(a, b, c), n);
      AllLegal(q) && DecodeQuad(q) == [a, b, c][..n] && forall i | 0 <= i < 4 :: !IsAsciiWhitespace(q[i])
  {
    hide EncodeGroup, Group, Sextet0, Sextet1, Sextet2, Sextet3, Packed, Bytes, IsAsciiWhitespace, Pads,
      SextetAt, AllLegal;
    var g := Group(a, b, c);
    MissingSextets(a, b);
    ValuesOfGroup(g, n);
    PackingUndoesSplitting(a, b, c);
    PadsOf(EncodeGroup(g, n));
    BytesOfGroup(a, b, c, n);
  }

  lemma BytesOfGroup(a: Byte, b: Byte, c: Byte, n: nat)
    requires 1 <= n <= 3
    ensures Bytes(Group(a, b, c), 3 - n) == [a, b, c][..n]
  {
    PackingUndoesSplitting(a, b, c);
    hide Group, Top, Middle, Low;
    if n == 1 {
      assert [a, b, c][..1] == [a];
    } else if n == 2 {
      assert [a, b, c][..2] == [a, b];
    } else {
      assert [a, b, c][..3] == [a, b, c];
    }
  }

  lemma PadStandsForZero()
    ensures ValueOf(PAD) == Some(0) && !IsAsciiWhitespace(PAD)
  {
  }

  lemma PadsOf(q: seq<Byte>)
    requires |q| == 4 && q[0] != PAD && q[1] != PAD
    ensures Pads(q) == (if q[2] == PAD then 1 else 0) + (if q[3] == PAD then 1 else 0)
  {
    NoPads();
    assert q == ((([] + [q[0]]) + [q[1]]) + [q[2]]) + [q[3]];
    PadsOneMore([], q[0]);
    PadsOneMore([] + [q[0]], q[1]);
    PadsOneMore(([] + [q[0]]) + [q[1]], q[2]);
    PadsOneMore((([] + [q[0]]) + [q[1]]) + [q[2]], q[3]);
  }

  lemma {:induction false} EncodeDecodes(data: seq<Byte>)
    ensures |Encode(data)| % 4 == 0 && AllLegal(Encode(data)) && DecodeQuads(Encode(data)) == data
    ensures forall i | 0 <= i < |Encode(data)| :: !IsAsciiWhitespace(Encode(data)[i])
  {
    hide EncodeGroup, Group, DecodeQuad, IsAsciiWhitespace, IsLegal;
    if data != [] {
      var n := if |data| < 3 then |data| else 3;
      var (a, b, c) := (data[0], if n < 2 then 0 else data[1], if n < 3 then 0 else data[2]);
      var (q, rest) := (Encode(data)[..4], Encode(data[n..]));
      assert Encode(data) == q + rest && q == EncodeGroup(Group(a, b, c), n);
      QuadOfLetters(a, b, c, n);
      EncodeDecodes(data[n..]);
      QuadInFront(q, rest);
      assert data == [a, b, c][..n] + data[n..];
    }
  }

  lemma QuadInFront(q: seq<Byte>, rest: seq<Byte>)
    requires |q| == 4 && |rest| % 4 == 0 && AllLegal(q) && AllLegal(rest)
    ensures AllLegal(q + rest) && DecodeQuads(q + rest) == DecodeQuad(q) + DecodeQuads(rest)
  {
    hide DecodeQuad, IsLegal;
    assert (q + rest)[..4] == q && (q + rest)[4..] == rest;
  }

  /** A text that is the encoding of some bytes once its white space is gone decodes to those bytes. */
  lemma DecodeUndoesEncode(data: seq<Byte>, input: seq<Byte>)
    requires Cleaned(input) == Encode(data)
    ensures Decode(input) == Ok(data)
  {
    EncodeDecodes(data);
  }

  /** That holds of the encoding itself, and goes on holding when white space is put in anywhere. */
  lemma {:induction false} NothingToClean(s: seq<Byte>)
    requires forall i | 0 <= i < |s| :: !IsAsciiWhitespace(s[i])
    ensures Cleaned(s) == s
  {
    if s != [] {
      NothingToClean(s[1..]);
    }
  }

  /** Space, tab, line feed, form feed and carriage return can stand anywhere. */
  lemma WhitespaceIsIgnored(before: seq<Byte>, space: Byte, behind: seq<Byte>)
    requires IsSpace(space)
    ensures Cleaned(before + [space] + behind) == Cleaned(before + behind)
    ensures Decode(before + [space] + behind) == Decode(before + behind)
  {
    assert IsAsciiWhitespace(space) && Cleaned([space]) == [];
    hide Cleaned, IsAsciiWhitespace, AllLegal, DecodeQuads;
    CleanedConcat(before + [space], behind);
    CleanedConcat(before, [space]);
    CleanedConcat(before, behind);
  }

  lemma EncodingIsClean(data: seq<Byte>)
    ensures Cleaned(Encode(data)) == Encode(data) && Decode(Encode(data)) == Ok(data)
  {
    EncodeDecodes(data);
    NothingToClean(Encode(data));
  }

  // What else is accepted.

  predicate EndsInFourZeros(v: Word) { v & 15 == 0 }
  predicate EndsInTwoZeros(v: Word) { v & 3 == 0 }

  /** Padding only where the RFC puts it, and zero bits in front of it. */
  predicate CanonicalEnd(q: seq<Byte>)
    requires |q| == 4 && AllLegal(q)
  {
    q[0] != PAD && q[1] != PAD
    && (q[2] == PAD ==> q[3] == PAD && EndsInFourZeros(SextetAt(q, 1)))
    && (q[2] != PAD && q[3] == PAD ==> EndsInTwoZeros(SextetAt(q, 2)))
  }

  predicate Canonical(s: seq<Byte>)
    requires |s| % 4 == 0 && AllLegal(s)
  {
    s == [] || (CanonicalEnd(s[..4]) && (|s| > 4 ==> s[3] != PAD && Canonical(s[4..])))
  }

  lemma LetterOfValue(c: Byte)
    requires IsLegal(c) && c != PAD
    ensures Letter(ValueOf(c).value) == c
  {
  }

  lemma FirstSextets(v0: Word, v1: Word, v2: Word, v3: Word)
    requires v0 < 64 && v1 < 64 && v2 < 64 && v3 < 64
    ensures Sextet0(Packed(v0, v1, v2, v3)) == v0 && Sextet1(Packed(v0, v1, v2, v3)) == v1
  {
  }

  lemma LastSextets(v0: Word, v1: Word, v2: Word, v3: Word)
    requires v0 < 64 && v1 < 64 && v2 < 64 && v3 < 64
    ensures Sextet2(Packed(v0, v1, v2, v3)) == v2 && Sextet3(Packed(v0, v1, v2, v3)) == v3
  {
  }

  lemma GroupOfPacked(v0: Word, v1: Word, v2: Word, v3: Word)
    requires v0 < 64 && v1 < 64 && v2 < 64 && v3 < 64
    ensures var n := Packed(v0, v1, v2, v3); Group(Top(n), Middle(n), Low(n)) == n
  {
    var n := Packed(v0, v1, v2, v3);
    assert n < 0x100_0000;
    GroupOfBytes(n);
  }

  lemma GroupOfBytes(n: Word)
    requires n < 0x100_0000
    ensures Group(Top(n), Middle(n), Low(n)) == n
  {
  }

  /** Zero bits are lost without a trace. */
  lemma ZeroBitsAreLost(v0: Word, v1: Word, v2: Word)
    requires v0 < 64 && v1 < 64 && v2 < 64
    ensures EndsInFourZeros(v1) ==> Group(Top(Packed(v0, v1, 0, 0)), 0, 0) == Packed(v0, v1, 0, 0)
    ensures EndsInTwoZeros(v2) ==>
      Group(Top(Packed(v0, v1, v2, 0)), Middle(Packed(v0, v1, v2, 0)), 0) == Packed(v0, v1, v2, 0)
  {
  }

  lemma LostBitsAreZero(a: Byte, b: Byte)
    ensures EndsInFourZeros(Sextet1(Group(a, 0, 0))) && EndsInTwoZeros(Sextet2(Group(a, b, 0)))
  {
  }

  /** The encoding is canonical. */
  lemma {:induction false} EncodeIsCanonical(data: seq<Byte>)
    ensures AllLegal(Encode(data)) && |Encode(data)| % 4 == 0 && Canonical(Encode(data))
    decreases |data|
  {
    EncodeDecodes(data);
    if data != [] {
      var n := if |data| < 3 then |data| else 3;
      var (a, b, c) := (data[0], if n < 2 then 0 else data[1], if n < 3 then 0 else data[2]);
      EncodeIsCanonical(data[n..]);
      MissingSextets(a, b);
      LostBitsAreZero(a, b);
      hide EndsInFourZeros, EndsInTwoZeros, Letter, Group, Sextet0, Sextet1, Sextet2, Sextet3, ValueOf, AllLegal,
        SextetAt, EncodeGroup;
      ValuesOfGroup(Group(a, b, c), n);
      var q := EncodeGroup(Group(a, b, c), n);
      assert Encode(data)[..4] == q && Encode(data)[4..] == Encode(data[n..]);
      assert n < 3 ==> data[n..] == [];
    }
  }

  /** The letters of a packed group are the characters it was packed from. */
  lemma GroupReencodes(q: seq<Byte>, n: nat)
    requires |q| == 4 && AllLegal(q) && 1 <= n <= 3
    requires q[0] != PAD && q[1] != PAD && (q[2] == PAD <==> n < 2) && (q[3] == PAD <==> n < 3)
    ensures EncodeGroup(Packed(SextetAt(q, 0), SextetAt(q, 1), SextetAt(q, 2), SextetAt(q, 3)), n) == q
  {
    var (v0, v1, v2, v3) := (SextetAt(q, 0), SextetAt(q, 1), SextetAt(q, 2), SextetAt(q, 3));
    assert IsLegal(q[0]) && IsLegal(q[1]) && IsLegal(q[2]) && IsLegal(q[3]);
    hide Letter, Sextet0, Sextet1, Sextet2, Sextet3, ValueOf, Packed;
    FirstSextets(v0, v1, v2, v3);
    LastSextets(v0, v1, v2, v3);
    LetterOfValue(q[0]);
    LetterOfValue(q[1]);
    if n >= 2 {
      LetterOfValue(q[2]);
    }
    if n >= 3 {
      LetterOfValue(q[3]);
    }
  }

  lemma PadIsZero(q: seq<Byte>, i: nat)
    requires i < |q| && AllLegal(q) && q[i] == PAD
    ensures SextetAt(q, i) == 0
  {
  }

  lemma EncodeOfUnpacked(n: Word, pads: nat)
    requires pads <= 2
    ensures Encode(Bytes(n, pads)) ==
      EncodeGroup(Group(Top(n), if pads > 1 then 0 else Middle(n), if pads > 0 then 0 else Low(n)), 3 - pads)
  {
    hide Group, Top, Middle, Low, EncodeGroup;
    var bytes := Bytes(n, pads);
    if pads == 0 {
      assert bytes[3..] == [];
      assert Encode([]) == [];
    }
  }

  lemma EncodeOfBytes(q: seq<Byte>)
    requires |q| == 4 && AllLegal(q) && CanonicalEnd(q)
    ensures Encode(DecodeQuad(q)) == q
    ensures q[3] != PAD ==> |DecodeQuad(q)| == 3
  {
    hide Encode, Bytes, EndsInFourZeros, EndsInTwoZeros, Group, Packed, Top, Middle, Low, Pads, EncodeGroup,
      SextetAt, AllLegal;
    var (v0, v1, v2, v3) := (SextetAt(q, 0), SextetAt(q, 1), SextetAt(q, 2), SextetAt(q, 3));
    PadsOf(q);
    EncodeOfUnpacked(Packed(v0, v1, v2, v3), Pads(q));
    BytesLeft(Packed(v0, v1, v2, v3), Pads(q));
    if q[3] != PAD {
      GroupOfPacked(v0, v1, v2, v3);
      GroupReencodes(q, 3);
    } else if q[2] != PAD {
      PadIsZero(q, 3);
      ZeroBitsAreLost(v0, v1, v2);
      GroupReencodes(q, 2);
    } else {
      PadIsZero(q, 3);
      PadIsZero(q, 2);
      ZeroBitsAreLost(v0, v1, v2);
      GroupReencodes(q, 1);
    }
  }

  lemma BytesLeft(n: Word, pads: nat)
    requires pads <= 2
    ensures |Bytes(n, pads)| == 3 - pads
  {
  }

  lemma {:induction false} CanonicalReencodes(s: seq<Byte>)
    requires |s| % 4 == 0 && AllLegal(s) && Canonical(s)
    ensures Encode(DecodeQuads(s)) == s
  {
    if s != [] {
      hide AllLegal, CanonicalEnd, DecodeQuad, EncodeGroup, Group;
      var (q, rest) := (s[..4], s[4..]);
      assert s == q + rest;
      EncodeOfBytes(q);
      if rest == [] {
        assert DecodeQuads(rest) == [];
        assert DecodeQuad(q) + [] == DecodeQuad(q);
      } else {
        CanonicalReencodes(rest);
        assert q[3] == s[3] != PAD;
        EncodeThreeMore(DecodeQuad(q), DecodeQuads(rest));
      }
    }
  }

  lemma EncodeThreeMore(three: seq<Byte>, rest: seq<Byte>)
    requires |three| == 3
    ensures Encode(three + rest) == Encode(three) + Encode(rest)
  {
    hide EncodeGroup;
    assert (three + rest)[3..] == rest && three[3..] == [];
    assert Encode([]) == [];
  }

  /** An accepted text is the encoding of what it decodes to exactly if it is canonical. */
  lemma ReencodesIfCanonical(input: seq<Byte>, data: seq<Byte>)
    requires Decode(input) == Ok(data)
    ensures Encode(data) == Cleaned(input) <==> Canonical(Cleaned(input))
  {
    if Canonical(Cleaned(input)) {
      CanonicalReencodes(Cleaned(input));
    }
    EncodeIsCanonical(data);
  }

  /** "QR==" is taken for "QQ==", the encoding of "A". */
  lemma NotCanonicalAndAccepted()
    ensures Decode([81, 82, PAD, PAD]) == Ok([65]) && Encode([65]) == [81, 81, PAD, PAD]
  {
    var s: seq<Byte> := [81, 82, PAD, PAD];
    assert IsLegal(s[0]) && IsLegal(s[1]) && IsLegal(s[2]) && IsLegal(s[3]) && AllLegal(s);
    NothingToClean(s);
    assert s[..4] == s && s[4..] == [];
    PadsOf(s);
    assert SextetAt(s, 0) == 16 && SextetAt(s, 1) == 17 && SextetAt(s, 2) == 0 && SextetAt(s, 3) == 0;
    assert Top(Packed(16, 17, 0, 0)) == 65;
    assert DecodeQuad(s) == [65];
    NoQuads();
    assert DecodeQuads(s) == [65] + [] && [65] + [] == [65];
    assert Cleaned(s) == s;
    assert Decode(s).Ok?;
    assert Decode(s).value == [65];
    assert Sextet0(Group(65, 0, 0)) == 16 && Sextet1(Group(65, 0, 0)) == 16 && Letter(16) == 81;
  }

  /** The test vectors of section 10 of RFC 4648. */
  lemma TestVectors()
    ensures Encode([]) == []
    ensures Encode([0x66]) == [0x5a, 0x67, 0x3d, 0x3d]                                            // f: Zg==
    ensures Encode([0x66, 0x6f]) == [0x5a, 0x6d, 0x38, 0x3d]                                      // fo: Zm8=
    ensures Encode([0x66, 0x6f, 0x6f]) == [0x5a, 0x6d, 0x39, 0x76]                                // foo: Zm9v
    ensures Encode([0x66, 0x6f, 0x6f, 0x62]) == [0x5a, 0x6d, 0x39, 0x76, 0x59, 0x67, 0x3d, 0x3d]  // foob: Zm9vYg==
  {
    assert [0x66 as Byte, 0x6f, 0x6f, 0x62][3..] == [0x62] && [0x66 as Byte, 0x6f, 0x6f][3..] == [];
  }
}
