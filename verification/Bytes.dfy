/**
 Bytes and the numbers they are written for.
 */
module Bytes {
  type Byte = bv8

  lemma ByteHoldsIt(m: int)
    requires 0 <= m < 256
    ensures (m as bv8) as int == m
  {
    var b := m as bv8;
    if b < 64 {
    } else if b < 128 {
    } else {
    }
  }

  ghost function Pow256(k: nat): nat {
    if k == 0 then 1 else 256 * Pow256(k - 1)
  }

  lemma Pow256Is()
    ensures Pow256(8) == 0x1_0000_0000_0000_0000
    ensures Pow256(16) == 0x1_0000_0000_0000_0000_0000_0000_0000_0000
  {
    assert Pow256(4) == 0x1_0000_0000;
    assert Pow256(8) == 0x1_0000_0000_0000_0000;
    assert Pow256(12) == 0x1_0000_0000_0000_0000_0000_0000;
  }

  /** The number that bytes stand for, the least significant first. */
  ghost function LittleValue(s: seq<Byte>): nat {
    if s == [] then 0 else s[0] as nat + 256 * LittleValue(s[1..])
  }

  function LittleEndian(n: nat, width: nat): (r: seq<Byte>)
    ensures |r| == width
  {
    if width == 0 then [] else [(n % 0x100) as Byte] + LittleEndian(n / 0x100, width - 1)
  }

  /** `width` bytes hold every number below 256^width. */
  lemma {:induction false} LittleEndianIsTheNumber(n: nat, width: nat)
    requires n < Pow256(width)
    ensures LittleValue(LittleEndian(n, width)) == n
  {
    if width > 0 {
      LittleEndianIsTheNumber(n / 0x100, width - 1);
      ByteHoldsIt(n % 0x100);
      var (b, rest) := ((n % 0x100) as Byte, LittleEndian(n / 0x100, width - 1));
      assert ([b] + rest)[1..] == rest;
    }
  }

  lemma FirstByte(s: seq<Byte>)
    requires s != []
    ensures LittleValue(s) % 256 == s[0] as nat && LittleValue(s) / 256 == LittleValue(s[1..])
  {
  }

  lemma SameNumberSameByte(a: Byte, b: Byte)
    requires a as nat == b as nat
    ensures a == b
  {
    assert (a as nat) as Byte == a && (b as nat) as Byte == b;
  }

  /** Bytes that stand for the same number are the same. */
  lemma {:induction false} LittleValueIsInjective(s: seq<Byte>, t: seq<Byte>)
    requires |s| == |t| && LittleValue(s) == LittleValue(t)
    ensures s == t
  {
    hide LittleValue;
    if s != [] {
      FirstByte(s);
      FirstByte(t);
      SameNumberSameByte(s[0], t[0]);
      LittleValueIsInjective(s[1..], t[1..]);
      assert s == [s[0]] + s[1..] && t == [t[0]] + t[1..];
    }
  }
}
