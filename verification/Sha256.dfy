/**
 The buffered SHA-256 hasher of src/control/executor.rs and the file-hashing loop around it, proved to
 compute the digest of Sha256Spec however the input is cut into pieces.
 */
module Sha256 {
  import opened Bytes
  import opened Sha256Spec

  const TWO_64: nat := 0x1_0000_0000_0000_0000

  // The rotations of the code compute the functions of the standard.

  method RotateBigSigma0(x: Word) returns (s: Word)
    ensures s == BigSigma0(x)
  {
    s := x.RotateRight(2) ^ x.RotateRight(13) ^ x.RotateRight(22);
  }

  method RotateBigSigma1(x: Word) returns (s: Word)
    ensures s == BigSigma1(x)
  {
    s := x.RotateRight(6) ^ x.RotateRight(11) ^ x.RotateRight(25);
  }

  method RotateSmallSigma0(x: Word) returns (s: Word)
    ensures s == SmallSigma0(x)
  {
    s := x.RotateRight(7) ^ x.RotateRight(18) ^ (x >> 3);
  }

  method RotateSmallSigma1(x: Word) returns (s: Word)
    ensures s == SmallSigma1(x)
  {
    s := x.RotateRight(17) ^ x.RotateRight(19) ^ (x >> 10);
  }

  /** The whole blocks of a message, which the hasher has already compressed. */
  ghost function FullBlocks(message: seq<Byte>): (r: seq<Byte>)
    ensures |r| % 64 == 0 && r <= message && |message| - |r| < 64
  {
    message[..|message| - |message| % 64]
  }

  /** `state` is the hash value over the whole blocks of `message` and `tail` is what is left of it. */
  ghost predicate Absorbed(state: seq<Word>, tail: seq<Byte>, message: seq<Byte>) {
    |tail| < 64 && state == Blocks(FullBlocks(message)) && message == FullBlocks(message) + tail
  }

  lemma SplitAtBlocks(front: seq<Byte>, tail: seq<Byte>)
    requires |front| % 64 == 0 && |tail| < 64
    ensures FullBlocks(front + tail) == front
  {
    assert (|front| + |tail|) % 64 == |tail|;
  }

  lemma AbsorbPart(state: seq<Word>, tail: seq<Byte>, message: seq<Byte>, part: seq<Byte>)
    requires Absorbed(state, tail, message) && |tail| + |part| < 64
    ensures Absorbed(state, tail + part, message + part)
  {
    hide Blocks;
    var front := FullBlocks(message);
    assert message + part == front + (tail + part);
    SplitAtBlocks(front, tail + part);
  }

  lemma AbsorbBlock(state: seq<Word>, tail: seq<Byte>, message: seq<Byte>, part: seq<Byte>)
    requires Absorbed(state, tail, message) && |tail| + |part| == 64
    ensures Absorbed(Sha256Spec.Compress(state, tail + part), [], message + part)
  {
    hide Sha256Spec.Compress;
    var front := FullBlocks(message);
    var grown := front + (tail + part);
    assert message + part == grown;
    assert grown == grown + [];
    SplitAtBlocks(grown, []);
    assert grown[..|grown| - 64] == front;
    assert grown[|grown| - 64..] == tail + part;
  }

  function Zeros(k: nat): (r: seq<Byte>)
    ensures |r| == k
  {
    seq(k, _ => 0)
  }

  /** The tail leaves room for the length field: one more block. */
  lemma PadInOneBlock(state: seq<Word>, tail: seq<Byte>, message: seq<Byte>, bits: nat, block: seq<Byte>)
    requires Absorbed(state, tail, message) && |tail| < 56
    requires block == tail + [0x80] + Zeros(55 - |tail|) + BigEndian(bits, 8)
    ensures Blocks(PadWith(message, bits)) == Sha256Spec.Compress(state, block)
  {
    hide Sha256Spec.Compress;
    var padded := PadWith(message, bits);
    assert ZeroBytes(|message|) == 55 - |tail|;
    assert padded == FullBlocks(message) + block;
    assert padded[..|padded| - 64] == FullBlocks(message) && padded[|padded| - 64..] == block;
  }

  /** It does not: the length field goes into a second block. */
  lemma PadInTwoBlocks(state: seq<Word>, tail: seq<Byte>, message: seq<Byte>, bits: nat,
                       first: seq<Byte>, second: seq<Byte>)
    requires Absorbed(state, tail, message) && 56 <= |tail|
    requires first == tail + [0x80] + Zeros(63 - |tail|)
    requires second == Zeros(56) + BigEndian(bits, 8)
    ensures Blocks(PadWith(message, bits)) == Sha256Spec.Compress(Sha256Spec.Compress(state, first), second)
  {
    hide Sha256Spec.Compress;
    var padded := PadWith(message, bits);
    assert ZeroBytes(|message|) == 119 - |tail|;
    var front := FullBlocks(message) + first;
    assert padded == front + second;
    assert padded[..|padded| - 64] == front && padded[|padded| - 64..] == second;
    assert front[..|front| - 64] == FullBlocks(message) && front[|front| - 64..] == first;
  }

  class Hasher {
    const state: array<Word>
    const buf: array<Byte>
    var bufLen: nat
    var totalLen: nat  // a u64: it wraps
    ghost var message: seq<Byte>  // everything given to Update so far

    ghost predicate Valid()
      reads this, state, buf
    {
      && state.Length == 8 && buf.Length == 64 && bufLen < 64
      && totalLen == |message| % TWO_64
      && Absorbed(state[..], buf[..bufLen], message)
    }

    constructor ()
      ensures Valid() && fresh(state) && fresh(buf)
      ensures message == []
    {
      state := new Word[8](i requires 0 <= i < 8 => H0[i]);
      buf := new Byte[64](_ => 0);
      bufLen := 0;
      totalLen := 0;
      message := [];
      new;
      assert state[..] == H0;
    }

    /** The first half of the compression function: the message schedule. */
    static method FillSchedule(w: array<Word>, block: seq<Byte>)
      requires w.Length == 64 && |block| == 64
      modifies w
      ensures forall j | 0 <= j < 64 :: w[j] == Schedule(block, j)
    {
      hide Expand, WordOf;
      for i := 0 to 16
        invariant forall j | 0 <= j < i :: w[j] == Schedule(block, j)
      {
        w[i] := WordOf(block[i * 4], block[i * 4 + 1], block[i * 4 + 2], block[i * 4 + 3]);
      }
      for i := 16 to 64
        invariant forall j | 0 <= j < i :: w[j] == Schedule(block, j)
      {
        w[i] := ExpandWord(w[i - 16], w[i - 15], w[i - 7], w[i - 2]);
      }
    }

    /** The second half: 64 rounds over eight rotating registers. */
    static method RunRounds(hash: seq<Word>, w: array<Word>, ghost block: seq<Byte>) returns (r: Registers)
      requires |hash| == 8 && |block| == 64 && w.Length == 64
      requires forall j | 0 <= j < 64 :: w[j] == Schedule(block, j)
      ensures r == Rounds(hash, block, 64)
    {
      hide Add, T1, T2, RoundConstant, Schedule;
      var a, b, c, d := hash[0], hash[1], hash[2], hash[3];
      var e, f, g, h := hash[4], hash[5], hash[6], hash[7];
      for i := 0 to 64
        invariant Registers(a, b, c, d, e, f, g, h) == Rounds(hash, block, i)
      {
        var t1, t2 := RoundTemporaries(a, b, c, e, f, g, h, RoundConstant(i), w[i]);
        h := g;
        g := f;
        f := e;
        e := Add(d, t1);
        d := c;
        c := b;
        b := a;
        a := Add(t1, t2);
      }
      r := Registers(a, b, c, d, e, f, g, h);
    }

    method Compress(block: seq<Byte>)
      requires state.Length == 8 && |block| == 64
      modifies state
      ensures state[..] == Sha256Spec.Compress(old(state[..]), block)
    {
      hide Add, Rounds, Schedule;
      var w := new Word[64];
      FillSchedule(w, block);
      var v := RunRounds(state[..], w, block);
      AddToState(v);
    }

    method AddToState(v: Registers)
      requires state.Length == 8
      modifies state
      ensures state[..] == AddRegisters(old(state[..]), v)
    {
      hide Add;
      state[0] := Add(state[0], v.a);
      state[1] := Add(state[1], v.b);
      state[2] := Add(state[2], v.c);
      state[3] := Add(state[3], v.d);
      state[4] := Add(state[4], v.e);
      state[5] := Add(state[5], v.f);
      state[6] := Add(state[6], v.g);
      state[7] := Add(state[7], v.h);
      assert state[..] == [state[0], state[1], state[2], state[3], state[4], state[5], state[6], state[7]];
    }

    /** Copies `part` behind the bytes that are waiting. */
    method CopyIn(part: seq<Byte>)
      requires buf.Length == 64 && bufLen + |part| <= 64
      modifies this`bufLen, buf
      ensures bufLen == old(bufLen) + |part|
      ensures buf[..bufLen] == old(buf[..bufLen]) + part
    {
      forall j | 0 <= j < |part| {
        buf[bufLen + j] := part[j];
      }
      bufLen := bufLen + |part|;
    }

    /** `message` grows by `data`, whatever part of a block was waiting and however long `data` is. */
    method Update(data: seq<Byte>)
      requires Valid()
      modifies this, state, buf
      ensures Valid()
      ensures message == old(message) + data
    {
      hide Absorbed, Sha256Spec.Compress;
      totalLen := (totalLen + |data|) % TWO_64;
      var i := 0;
      assert message + data[..0] == message;
      while i < |data|
        invariant 0 <= i <= |data|
        invariant message == old(message) && totalLen == (|message| + |data|) % TWO_64
        invariant state.Length == 8 && buf.Length == 64 && bufLen < 64
        invariant Absorbed(state[..], buf[..bufLen], message + data[..i])
      {
        ghost var hash, tail, done := state[..], buf[..bufLen], message + data[..i];
        var take := if 64 - bufLen < |data| - i then 64 - bufLen else |data| - i;
        var part := data[i..i + take];
        CopyIn(part);
        i := i + take;
        assert message + data[..i] == done + part;
        assert state[..] == hash;
        if bufLen == 64 {
          AbsorbBlock(hash, tail, done, part);
          var block := buf[..];
          assert block == tail + part;
          Compress(block);
          bufLen := 0;
          assert buf[..bufLen] == [];
        } else {
          AbsorbPart(hash, tail, done, part);
        }
      }
      assert data[..i] == data;
      message := message + data;
    }

    method ZeroFill(lo: nat, hi: nat)
      requires buf.Length == 64 && lo <= hi <= 64
      modifies buf
      ensures buf[..] == old(buf[..lo]) + Zeros(hi - lo) + old(buf[hi..])
    {
      for i := lo to hi
        invariant buf[..] == old(buf[..lo]) + Zeros(i - lo) + old(buf[i..])
      {
        buf[i] := 0;
      }
    }

    /**
     The digest of everything given to Update. The hasher is used up. The length field is the bit count
     modulo 2^64, so below the standard's limit of 2^64 bits the result is the standard's digest.
     */
    method Finalize() returns (out: array<Byte>)
      requires Valid()
      modifies this, state, buf
      ensures fresh(out)
      ensures out[..] == BytesOfAll(Blocks(PadWith(old(message), 8 * |old(message)| % 0x1_0000_0000_0000_0000)))
      ensures |old(message)| < 0x2000_0000_0000_0000 ==> out[..] == Digest(old(message))
    {
      hide Blocks, BytesOf, PadWith, Absorbed;
      var bitLen := totalLen * 8 % TWO_64;
      assert bitLen == 8 * |message| % TWO_64;
      CompressPadding(bitLen);
      out := StateBytes();
    }

    /** The 0x80 marker, the zeros and the length field, compressed in one block or two. */
    method CompressPadding(bitLen: nat)
      requires Valid()
      modifies this`bufLen, state, buf
      ensures state[..] == Blocks(PadWith(message, bitLen))
    {
      hide Blocks, Sha256Spec.Compress, PadWith, Absorbed;
      ghost var hash, tail := state[..], buf[..bufLen];
      var two := MarkEnd();
      ghost var first := buf[..];
      if two {
        Compress(buf[..]);
        bufLen := 0;
      }
      ghost var mid, start := state[..], buf[..bufLen];
      ZeroFill(bufLen, 56);
      var length := BigEndian(bitLen, 8);
      forall i | 56 <= i < 64 {
        buf[i] := length[i - 56];
      }
      assert buf[..] == start + Zeros(56 - bufLen) + length;
      if two {
        PadInTwoBlocks(hash, tail, message, bitLen, first, buf[..]);
      } else {
        PadInOneBlock(hash, tail, message, bitLen, buf[..]);
      }
      assert state[..] == mid;
      Compress(buf[..]);
    }

    /** Puts the marker after the tail, and clears the rest of the block when the length field cannot follow. */
    method MarkEnd() returns (full: bool)
      requires buf.Length == 64 && bufLen < 64
      modifies this`bufLen, buf
      ensures bufLen == old(bufLen) + 1
      ensures full == (bufLen > 56)
      ensures buf[..bufLen] == old(buf[..bufLen]) + [0x80]
      ensures full ==> buf[..] == old(buf[..bufLen]) + [0x80] + Zeros(63 - old(bufLen))
    {
      buf[bufLen] := 0x80;
      bufLen := bufLen + 1;
      full := bufLen > 56;
      if full {
        ghost var marked := buf[..bufLen];
        ZeroFill(bufLen, 64);
        assert buf[..] == marked + Zeros(64 - bufLen);
        assert buf[..bufLen] == marked;
      }
    }

    method StateBytes() returns (out: array<Byte>)
      requires state.Length == 8
      ensures fresh(out) && out[..] == BytesOfAll(state[..])
    {
      hide BytesOf;
      out := new Byte[32];
      for i := 0 to 8
        invariant out[..4 * i] == BytesOfAll(state[..i])
      {
        ghost var before := out[..4 * i];
        var bytes := BytesOf(state[i]);
        out[4 * i] := bytes[0];
        out[4 * i + 1] := bytes[1];
        out[4 * i + 2] := bytes[2];
        out[4 * i + 3] := bytes[3];
        assert out[..4 * (i + 1)] == before + bytes;
        assert state[..i + 1][..i] == state[..i];
      }
      assert out[..] == out[..32] && state[..] == state[..8];
    }
  }

  /** The body of the schedule loop. */
  method ExpandWord(w16: Word, w15: Word, w7: Word, w2: Word) returns (w: Word)
    ensures w == Expand(w16, w15, w7, w2)
  {
    hide Add, SmallSigma0, SmallSigma1;
    var s0 := RotateSmallSigma0(w15);
    var s1 := RotateSmallSigma1(w2);
    w := Add(Add(Add(w16, s0), w7), s1);
  }

  /** The temporaries of one round. */
  method RoundTemporaries(a: Word, b: Word, c: Word, e: Word, f: Word, g: Word, h: Word, k: Word, w: Word)
    returns (t1: Word, t2: Word)
    ensures t1 == T1(e, f, g, h, k, w)
    ensures t2 == T2(a, b, c)
  {
    hide Add, BigSigma0, BigSigma1;
    var s1 := RotateBigSigma1(e);
    var ch := (e & f) ^ (!e & g);
    t1 := Add(Add(Add(Add(h, s1), ch), k), w);
    var s0 := RotateBigSigma0(a);
    var mj := (a & b) ^ (a & c) ^ (b & c);
    t2 := Add(s0, mj);
  }
}
