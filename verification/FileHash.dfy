/**
 The file-hashing loop of src/control/executor.rs and the hex text of a digest.
 */
module FileHash {
  import opened Bytes
  import opened Sha256Spec
  import opened Sha256

  // Hashing a file.

  /** What one read of at most 64 KiB gives; `Data([])` is the end of the file. */
  datatype Read = Data(bytes: seq<Byte>) | Failed

  datatype Result<T> = Ok(value: T) | Err

  /** What a reader that stops at the end of the file or at the first failure has seen. */
  ghost function Contents(script: seq<Read>): Result<seq<Byte>> {
    if script == [] || script[0] == Data([]) then Ok([])
    else if script[0].Failed? then Err
    else Prepend(script[0].bytes, Contents(script[1..]))
  }

  ghost function Prepend(front: seq<Byte>, rest: Result<seq<Byte>>): Result<seq<Byte>> {
    if rest.Ok? then Ok(front + rest.value) else Err
  }

  lemma PrependNothing(rest: Result<seq<Byte>>)
    ensures Prepend([], rest) == rest
  {
    if rest.Ok? {
      assert [] + rest.value == rest.value;
    }
  }

  lemma PrependTwice(a: seq<Byte>, b: seq<Byte>, rest: Result<seq<Byte>>)
    ensures Prepend(a, Prepend(b, rest)) == Prepend(a + b, rest)
  {
    if rest.Ok? {
      assert a + (b + rest.value) == (a + b) + rest.value;
    }
  }

  /** The hex digest of the file, whatever sizes the reads happen to have. */
  method HashFile(script: seq<Read>) returns (r: Result<string>)
    ensures r.Err? <==> Contents(script).Err?
    ensures r.Ok? && |Contents(script).value| < 0x2000_0000_0000_0000 ==> r.value == HexText(Digest(Contents(script).value))
  {
    hide Digest, HexText, Absorbed;
    var h := new Hasher();
    var i := 0;
    assert script[0..] == script;
    assert Contents(script) == Prepend([], Contents(script)) by {
      PrependNothing(Contents(script));
    }
    while i < |script| && script[i] != Data([])
      invariant 0 <= i <= |script|
      invariant h.Valid() && fresh(h) && fresh(h.state) && fresh(h.buf)
      invariant Contents(script) == Prepend(h.message, Contents(script[i..]))
    {
      if script[i].Failed? {
        return Err;
      }
      assert script[i..][1..] == script[i + 1..];
      PrependTwice(h.message, script[i].bytes, Contents(script[i + 1..]));
      h.Update(script[i].bytes);
      i := i + 1;
    }
    ghost var message := h.message;
    assert Contents(script[i..]) == Ok([]);
    assert Contents(script) == Ok(message) by {
      assert message + [] == message;
    }
    var digest := h.Finalize();
    var text := Hex(digest[..]);
    r := Ok(text);
  }

  const HEX_DIGITS: string := "0123456789abcdef"

  function HighDigit(b: Byte): char {
    HEX_DIGITS[b >> 4]
  }

  function LowDigit(b: Byte): char {
    HEX_DIGITS[b & 0xf]
  }

  function HexText(bytes: seq<Byte>): (r: string)
    ensures |r| == 2 * |bytes|
  {
    if bytes == [] then ""
    else HexText(bytes[..|bytes| - 1]) + [HighDigit(bytes[|bytes| - 1]), LowDigit(bytes[|bytes| - 1])]
  }

  method Hex(bytes: seq<Byte>) returns (s: string)
    ensures s == HexText(bytes)
  {
    hide HighDigit, LowDigit;
    s := "";
    for i := 0 to |bytes|
      invariant s == HexText(bytes[..i])
    {
      var b := bytes[i];
      assert bytes[..i + 1][..i] == bytes[..i];
      s := s + [HighDigit(b)];
      s := s + [LowDigit(b)];
    }
    assert bytes[..|bytes|] == bytes;
  }

  function HexDigitValue(c: char): bv8 {
    match c
    case '0' => 0 case '1' => 1 case '2' => 2 case '3' => 3 case '4' => 4 case '5' => 5 case '6' => 6 case '7' => 7
    case '8' => 8 case '9' => 9 case 'a' => 10 case 'b' => 11 case 'c' => 12 case 'd' => 13 case 'e' => 14 case _ => 15
  }

  function ByteFromHex(hi: char, lo: char): Byte {
    (HexDigitValue(hi) << 4) | HexDigitValue(lo)
  }

  lemma DigitRoundTrip(n: bv8)
    requires n < 16
    ensures HexDigitValue(HEX_DIGITS[n]) == n
  {
  }

  lemma ByteRoundTrip(b: Byte)
    ensures ByteFromHex(HighDigit(b), LowDigit(b)) == b
  {
    hide HexDigitValue;
    DigitRoundTrip(b >> 4);
    DigitRoundTrip(b & 0xf);
  }

  function BytesFromHex(s: string): seq<Byte> {
    if |s| < 2 then [] else BytesFromHex(s[..|s| - 2]) + [ByteFromHex(s[|s| - 2], s[|s| - 1])]
  }

  /** The text determines the bytes, so comparing hex digests compares digests. */
  lemma {:induction false} HexRoundTrip(bytes: seq<Byte>)
    ensures BytesFromHex(HexText(bytes)) == bytes
  {
    hide HighDigit, LowDigit, ByteFromHex;
    if bytes != [] {
      var n := |bytes| - 1;
      var s := HexText(bytes);
      assert s[..|s| - 2] == HexText(bytes[..n]);
      HexRoundTrip(bytes[..n]);
      ByteRoundTrip(bytes[n]);
      assert bytes[..n] + [bytes[n]] == bytes;
    }
  }
}
