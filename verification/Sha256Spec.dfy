/**
 SHA-256 as FIPS 180-4 defines it: constants (4.2.2, 5.3.3), functions (3.2, 4.1.2), padding (5.1.1),
 parsing (5.2.1) and the hash computation (6.2.2). The hasher of src/control/executor.rs is proved against
 this module in Sha256.dfy. What the two share is proved to be what the standard asks for: the constants are roots
 of primes, sums are modulo 2^32, and words, lengths and digests have their most significant byte first.
 */
module Sha256Spec {
  import opened Bytes
  import opened Primes

  type Word = bv32

  /** Section 4.2.2: one constant a round, in rows of eight. */
  const K: seq<seq<Word>> := [
    [0x428a2f98, 0x71374491, 0xb5c0fbcf, 0xe9b5dba5, 0x3956c25b, 0x59f111f1, 0x923f82a4, 0xab1c5ed5],
    [0xd807aa98, 0x12835b01, 0x243185be, 0x550c7dc3, 0x72be5d74, 0x80deb1fe, 0x9bdc06a7, 0xc19bf174],
    [0xe49b69c1, 0xefbe4786, 0x0fc19dc6, 0x240ca1cc, 0x2de92c6f, 0x4a7484aa, 0x5cb0a9dc, 0x76f988da],
    [0x983e5152, 0xa831c66d, 0xb00327c8, 0xbf597fc7, 0xc6e00bf3, 0xd5a79147, 0x06ca6351, 0x14292967],
    [0x27b70a85, 0x2e1b2138, 0x4d2c6dfc, 0x53380d13, 0x650a7354, 0x766a0abb, 0x81c2c92e, 0x92722c85],
    [0xa2bfe8a1, 0xa81a664b, 0xc24b8b70, 0xc76c51a3, 0xd192e819, 0xd6990624, 0xf40e3585, 0x106aa070],
    [0x19a4c116, 0x1e376c08, 0x2748774c, 0x34b0bcb5, 0x391c0cb3, 0x4ed8aa4a, 0x5b9cca4f, 0x682e6ff3],
    [0x748f82ee, 0x78a5636f, 0x84c87814, 0x8cc70208, 0x90befffa, 0xa4506ceb, 0xbef9a3f7, 0xc67178f2]
  ]

  /** Section 5.3.3. */
  const H0: seq<Word> := [
    0x6a09e667, 0xbb67ae85, 0x3c6ef372, 0xa54ff53a, 0x510e527f, 0x9b05688c, 0x1f83d9ab, 0x5be0cd19
  ]

  function RoundConstant(t: nat): Word
    requires t < 64
  {
    K[t / 8][t % 8]
  }

  /** `x` is the integer part of 2^32 times the cube root of `p`. */
  ghost predicate IsScaledCubeRoot(p: int, x: int) {
    x * x * x <= p * 0x1_0000_0000_0000_0000_0000_0000 < (x + 1) * (x + 1) * (x + 1)
  }

  /** `x` is the integer part of 2^32 times the square root of `p`. */
  ghost predicate IsScaledSquareRoot(p: int, x: int) {
    x * x <= p * 0x1_0000_0000_0000_0000 < (x + 1) * (x + 1)
  }

  /** The integer part of the cube root. */
  function WholeCubeRoot(p: int): (r: int)
    ensures 0 < p < 343 ==> r * r * r <= p < (r + 1) * (r + 1) * (r + 1)
  {
    if p < 8 then 1 else if p < 27 then 2 else if p < 64 then 3 else if p < 125 then 4 else if p < 216 then 5 else 6
  }

  /** Put behind the integer part, the constant gives the scaled cube root. */
  ghost predicate IsFractionOfCubeRoot(p: int, k: Word) {
    IsScaledCubeRoot(p, WholeCubeRoot(p) * 0x1_0000_0000 + k as int)
  }

  ghost predicate AreFractionsOfCubeRoots(r: nat)
    requires r < 8
  {
    && |K[r]| == 8 && |PRIMES[r]| == 8
    && var (ps, ks) := (PRIMES[r], K[r]);
    && IsFractionOfCubeRoot(ps[0], ks[0]) && IsFractionOfCubeRoot(ps[1], ks[1])
    && IsFractionOfCubeRoot(ps[2], ks[2]) && IsFractionOfCubeRoot(ps[3], ks[3])
    && IsFractionOfCubeRoot(ps[4], ks[4]) && IsFractionOfCubeRoot(ps[5], ks[5])
    && IsFractionOfCubeRoot(ps[6], ks[6]) && IsFractionOfCubeRoot(ps[7], ks[7])
  }

  lemma CubeRoots0()
    ensures AreFractionsOfCubeRoots(0)
  {
  }

  lemma CubeRoots1()
    ensures AreFractionsOfCubeRoots(1)
  {
  }

  lemma CubeRoots2()
    ensures AreFractionsOfCubeRoots(2)
  {
  }

  lemma CubeRoots3()
    ensures AreFractionsOfCubeRoots(3)
  {
  }

  lemma CubeRoots4()
    ensures AreFractionsOfCubeRoots(4)
  {
  }

  lemma CubeRoots5()
    ensures AreFractionsOfCubeRoots(5)
  {
  }

  lemma CubeRoots6()
    ensures AreFractionsOfCubeRoots(6)
  {
  }

  lemma CubeRoots7()
    ensures AreFractionsOfCubeRoots(7)
  {
  }

  /** Section 4.2.2 calls for the first 32 bits of the fractional parts of the cube roots of the first 64 primes. */
  lemma RoundConstantsAreCubeRoots(t: nat)
    requires t < 64
    ensures IsFractionOfCubeRoot(PrimeAt(t), RoundConstant(t))
  {
    hide IsFractionOfCubeRoot;
    CubeRoots0();
    CubeRoots1();
    CubeRoots2();
    CubeRoots3();
    CubeRoots4();
    CubeRoots5();
    CubeRoots6();
    CubeRoots7();
  }

  /** The integer part of the square root. */
  function WholeSquareRoot(p: int): (r: int)
    ensures 0 < p < 25 ==> r * r <= p < (r + 1) * (r + 1)
  {
    if p < 4 then 1 else if p < 9 then 2 else if p < 16 then 3 else 4
  }

  ghost predicate IsFractionOfSquareRoot(p: int, h: Word) {
    IsScaledSquareRoot(p, WholeSquareRoot(p) * 0x1_0000_0000 + h as int)
  }

  lemma SquareRoots()
    ensures IsScaledSquareRoot(2, 0x1_6a09e667) && IsScaledSquareRoot(3, 0x1_bb67ae85)
    ensures IsScaledSquareRoot(5, 0x2_3c6ef372) && IsScaledSquareRoot(7, 0x2_a54ff53a)
    ensures IsScaledSquareRoot(11, 0x3_510e527f) && IsScaledSquareRoot(13, 0x3_9b05688c)
    ensures IsScaledSquareRoot(17, 0x4_1f83d9ab) && IsScaledSquareRoot(19, 0x4_5be0cd19)
  {
  }

  /** Section 5.3.3: the same, for the square roots of the first eight primes. */
  lemma InitialValueIsSquareRoots(i: nat)
    requires i < 8
    ensures IsFractionOfSquareRoot(PrimeAt(i), H0[i])
  {
    hide IsScaledSquareRoot;
    SquareRoots();
  }

  /** Section 3.2: addition modulo 2^32. */
  function Add(x: Word, y: Word): Word { x + y }

  // Its meaning for numbers, by way of the 33 bits of the sum.

  function Low(z: bv33): Word { (z & 0xffff_ffff) as Word }

  function High(z: bv33): bv1 { (z >> 32) as bv1 }

  lemma WideSum(x: Word, y: Word)
    ensures ((x as bv33) + (y as bv33)) as int == x as int + y as int
  {
  }

  lemma LowSum(x: Word, y: Word)
    ensures Low((x as bv33) + (y as bv33)) == Add(x, y)
  {
  }

  lemma BitInFront(hi: bv1, lo: Word)
    ensures (((hi as bv33) << 32) | (lo as bv33)) as int == hi as int * 0x1_0000_0000 + lo as int
  {
  }

  lemma HalvesPutTogether(z: bv33)
    ensures z == ((High(z) as bv33) << 32) | (Low(z) as bv33)
  {
  }

  lemma HalvesAreTheNumber(z: bv33)
    ensures z as int == High(z) as int * 0x1_0000_0000 + Low(z) as int
  {
    HalvesPutTogether(z);
    hide High, Low;
    BitInFront(High(z), Low(z));
  }

  lemma LowIsTheRemainder(z: bv33)
    ensures Low(z) as int == z as int % 0x1_0000_0000
  {
    HalvesAreTheNumber(z);
    hide Low, High;
    RemainderIs(z as int, High(z) as int, Low(z) as int);
  }

  lemma RemainderIs(n: int, q: int, r: int)
    requires n == q * 0x1_0000_0000 + r && 0 <= r < 0x1_0000_0000
    ensures n % 0x1_0000_0000 == r
  {
  }

  /** For numbers the sum of two words is their sum modulo 2^32. */
  lemma AddIsModulo(x: Word, y: Word)
    ensures Add(x, y) as int == (x as int + y as int) % 0x1_0000_0000
  {
    WideSum(x, y);
    LowSum(x, y);
    hide Add, Low, High;
    LowIsTheRemainder((x as bv33) + (y as bv33));
  }

  // Sections 3.2 and 4.1.2: ROTR^n(x) is written out as (x >> n) | (x << 32 - n).

  function Ch(x: Word, y: Word, z: Word): Word { (x & y) ^ (!x & z) }

  function Maj(x: Word, y: Word, z: Word): Word { (x & y) ^ (x & z) ^ (y & z) }

  function BigSigma0(x: Word): Word { ((x >> 2) | (x << 30)) ^ ((x >> 13) | (x << 19)) ^ ((x >> 22) | (x << 10)) }

  function BigSigma1(x: Word): Word { ((x >> 6) | (x << 26)) ^ ((x >> 11) | (x << 21)) ^ ((x >> 25) | (x << 7)) }

  function SmallSigma0(x: Word): Word { ((x >> 7) | (x << 25)) ^ ((x >> 18) | (x << 14)) ^ (x >> 3) }

  function SmallSigma1(x: Word): Word { ((x >> 17) | (x << 15)) ^ ((x >> 19) | (x << 13)) ^ (x >> 10) }

  /** Section 3.1: a word is four bytes, the most significant first. */
  function WordOf(a: Byte, b: Byte, c: Byte, d: Byte): Word {
    (a as Word << 24) | (b as Word << 16) | (c as Word << 8) | d as Word
  }

  function BytesOf(w: Word): (r: seq<Byte>)
    ensures |r| == 4
  {
    [((w >> 24) & 0xff) as Byte, ((w >> 16) & 0xff) as Byte, ((w >> 8) & 0xff) as Byte, (w & 0xff) as Byte]
  }

  function BytesOfAll(ws: seq<Word>): (r: seq<Byte>)
    ensures |r| == 4 * |ws|
  {
    if ws == [] then [] else BytesOfAll(ws[..|ws| - 1]) + BytesOf(ws[|ws| - 1])
  }

  /** The last `k` base-256 digits of `n`, the most significant first. */
  function BigEndian(n: nat, k: nat): (r: seq<Byte>)
    ensures |r| == k
  {
    if k == 0 then [] else BigEndian(n / 256, k - 1) + [(n % 256) as Byte]
  }

  ghost function BigEndianValue(s: seq<Byte>): nat {
    if s == [] then 0 else 256 * BigEndianValue(s[..|s| - 1]) + s[|s| - 1] as nat
  }

  /** The length field really is the number: `k` bytes hold every number below 256^k. */
  lemma {:induction false} BigEndianIsTheNumber(n: nat, k: nat)
    requires n < Pow256(k)
    ensures BigEndianValue(BigEndian(n, k)) == n
  {
    if k > 0 {
      BigEndianIsTheNumber(n / 256, k - 1);
      ByteHoldsIt(n % 256);
      ValueOfAppend(BigEndian(n / 256, k - 1), (n % 256) as Byte);
    }
  }

  lemma ValueOfAppend(s: seq<Byte>, b: Byte)
    ensures BigEndianValue(s + [b]) == 256 * BigEndianValue(s) + b as nat
  {
    assert (s + [b])[..|s|] == s;
  }

  /** One more byte at the end. */
  function Behind(x: Word, y: Byte): Word {
    (x << 8) | (y as Word)
  }

  lemma BehindIsTheNumber(x: Word, y: Byte)
    requires x < 0x100_0000
    ensures Behind(x, y) as int == x as int * 256 + y as int
    ensures (x < 0x100 ==> Behind(x, y) < 0x1_0000) && (x < 0x1_0000 ==> Behind(x, y) < 0x100_0000)
  {
  }

  lemma FourBehind(a: Byte, b: Byte, c: Byte, d: Byte)
    ensures Behind(Behind(Behind(a as Word, b), c), d) as nat == BigEndianValue([a, b, c, d])
  {
    hide Behind;
    BehindIsTheNumber(a as Word, b);
    BehindIsTheNumber(Behind(a as Word, b), c);
    BehindIsTheNumber(Behind(Behind(a as Word, b), c), d);
    FourBytes(a, b, c, d);
  }

  /** The bytes of a word are its digits to the base 256, the most significant first. */
  lemma BytesOfIsTheNumber(w: Word)
    ensures BigEndianValue(BytesOf(w)) == w as nat
  {
    var bytes := BytesOf(w);
    BytesPutTogether(w);
    hide BytesOf, Behind;
    FourBehind(bytes[0], bytes[1], bytes[2], bytes[3]);
    assert bytes == [bytes[0], bytes[1], bytes[2], bytes[3]];
  }

  lemma BytesPutTogether(w: Word)
    ensures var bytes := BytesOf(w); Behind(Behind(Behind(bytes[0] as Word, bytes[1]), bytes[2]), bytes[3]) == w
  {
  }

  /** A word is the number its four bytes are written as. */
  lemma WordOfIsTheNumber(a: Byte, b: Byte, c: Byte, d: Byte)
    ensures WordOf(a, b, c, d) as nat == BigEndianValue([a, b, c, d])
  {
    WordPutTogether(a, b, c, d);
    hide WordOf, Behind;
    FourBehind(a, b, c, d);
  }

  lemma WordPutTogether(a: Byte, b: Byte, c: Byte, d: Byte)
    ensures WordOf(a, b, c, d) == Behind(Behind(Behind(a as Word, b), c), d)
  {
  }

  lemma FourBytes(a: Byte, b: Byte, c: Byte, d: Byte)
    ensures BigEndianValue([a, b, c, d]) == ((a as nat * 256 + b as nat) * 256 + c as nat) * 256 + d as nat
  {
    assert [] + [a] == [a] && [a] + [b] == [a, b] && [a, b] + [c] == [a, b, c] && [a, b, c] + [d] == [a, b, c, d];
    ValueOfAppend([], a);
    ValueOfAppend([a], b);
    ValueOfAppend([a, b], c);
    ValueOfAppend([a, b, c], d);
  }

  // Section 5.1.1: padding.

  /** Number of zero BYTES after the byte 0x80 (a one bit and seven zero bits). */
  function ZeroBytes(length: nat): (z: nat)
    ensures z < 64
  {
    (55 - length) % 64
  }

  function Pad(message: seq<Byte>): (r: seq<Byte>)
    ensures |r| % 64 == 0
  {
    PadWith(message, 8 * |message|)
  }

  function PadWith(message: seq<Byte>, bitLength: nat): (r: seq<Byte>)
    ensures |r| % 64 == 0
  {
    message + [0x80] + seq(ZeroBytes(|message|), _ => 0) + BigEndian(bitLength, 8)
  }

  /** "k is the smallest, non-negative solution to the equation l + 1 + k = 448 mod 512", in bits. */
  lemma PaddingIsTheLeast(length: nat, k: nat)
    ensures (8 * length + 1 + (7 + 8 * ZeroBytes(length))) % 512 == 448
    ensures (8 * length + 1 + k) % 512 == 448 ==> 7 + 8 * ZeroBytes(length) <= k
  {
    var z := ZeroBytes(length);
    var q := (55 - length) / 64;
    assert 55 - length == 64 * q + z;
    assert 8 * length + 1 + 7 + 8 * z == 448 + 512 * -q;
  }

  // Section 6.2.2: the hash computation.

  datatype Registers = Registers(a: Word, b: Word, c: Word, d: Word, e: Word, f: Word, g: Word, h: Word)

  /** Step 1: the message schedule W_t. */
  function Schedule(block: seq<Byte>, t: nat): Word
    requires |block| == 64 && t < 64
  {
    if t < 16 then
      WordOf(block[4 * t], block[4 * t + 1], block[4 * t + 2], block[4 * t + 3])
    else
      Expand(Schedule(block, t - 16), Schedule(block, t - 15), Schedule(block, t - 7), Schedule(block, t - 2))
  }

  /** The standard lists these four terms from the last to the first. */
  function Expand(w16: Word, w15: Word, w7: Word, w2: Word): Word {
    Add(Add(Add(w16, SmallSigma0(w15)), w7), SmallSigma1(w2))
  }

  /** Steps 2 and 3: the working variables after `t` rounds. */
  function Rounds(hash: seq<Word>, block: seq<Byte>, t: nat): Registers
    requires |hash| == 8 && |block| == 64 && t <= 64
  {
    if t == 0 then
      Registers(hash[0], hash[1], hash[2], hash[3], hash[4], hash[5], hash[6], hash[7])
    else
      var r := Rounds(hash, block, t - 1);
      var t1 := T1(r.e, r.f, r.g, r.h, RoundConstant(t - 1), Schedule(block, t - 1));
      var t2 := T2(r.a, r.b, r.c);
      Registers(Add(t1, t2), r.a, r.b, r.c, Add(r.d, t1), r.e, r.f, r.g)
  }

  function T1(e: Word, f: Word, g: Word, h: Word, k: Word, w: Word): Word {
    Add(Add(Add(Add(h, BigSigma1(e)), Ch(e, f, g)), k), w)
  }

  function T2(a: Word, b: Word, c: Word): Word {
    Add(BigSigma0(a), Maj(a, b, c))
  }

  /** Step 4: the intermediate hash value after one more block. */
  function Compress(hash: seq<Word>, block: seq<Byte>): (r: seq<Word>)
    requires |hash| == 8 && |block| == 64
    ensures |r| == 8
  {
    AddRegisters(hash, Rounds(hash, block, 64))
  }

  function AddRegisters(hash: seq<Word>, v: Registers): (r: seq<Word>)
    requires |hash| == 8
    ensures |r| == 8
  {
    [Add(hash[0], v.a), Add(hash[1], v.b), Add(hash[2], v.c), Add(hash[3], v.d),
     Add(hash[4], v.e), Add(hash[5], v.f), Add(hash[6], v.g), Add(hash[7], v.h)]
  }

  /** The intermediate hash value after all the blocks of a padded message (section 5.2.1 cuts it up). */
  function Blocks(padded: seq<Byte>): (r: seq<Word>)
    requires |padded| % 64 == 0
    ensures |r| == 8
  {
    if padded == [] then H0
    else Compress(Blocks(padded[..|padded| - 64]), padded[|padded| - 64..])
  }

  /** The message digest. The standard defines it for messages of less than 2^64 bits. */
  function Digest(message: seq<Byte>): (r: seq<Byte>)
    ensures |r| == 32
  {
    BytesOfAll(Blocks(Pad(message)))
  }

  lemma {:induction false} WordsInOrder(ws: seq<Word>, i: nat)
    requires i < |ws|
    ensures BytesOfAll(ws)[4 * i..4 * i + 4] == BytesOf(ws[i])
  {
    hide BytesOf;
    var n := |ws| - 1;
    var front := BytesOfAll(ws[..n]);
    if i < n {
      WordsInOrder(ws[..n], i);
      assert BytesOfAll(ws)[4 * i..4 * i + 4] == front[4 * i..4 * i + 4];
    } else {
      assert BytesOfAll(ws)[4 * n..4 * n + 4] == BytesOf(ws[n]);
    }
  }

  /** Each four bytes of the digest are the number of a word of the hash value, in its order. */
  lemma DigestIsTheHashValue(message: seq<Byte>, i: nat)
    requires i < 8
    ensures BigEndianValue(Digest(message)[4 * i..4 * i + 4]) == Blocks(Pad(message))[i] as nat
  {
    hide Blocks, Pad, BytesOf, BigEndianValue;
    WordsInOrder(Blocks(Pad(message)), i);
    BytesOfIsTheNumber(Blocks(Pad(message))[i]);
  }
}
