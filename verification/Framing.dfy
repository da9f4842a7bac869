/**
 Length-prefixed frames over a stream of short and interrupted reads: src/plugin/protocol.rs.

 The JSON inside a frame is a parameter: `parse` for the receiver, `encode` for the sender.
 */
module Framing {
  import opened Options

  type Byte = n: int | 0 <= n < 256

  const MAX_FRAME_BYTES: nat := 1 * 1024 * 1024

  // Four bytes, least significant first.

  function Number(b: seq<Byte>): (n: nat)
    requires |b| == 4
    ensures n < 0x1_0000_0000
  {
    b[0] as int + 0x100 * (b[1] as int + 0x100 * (b[2] as int + 0x100 * (b[3] as int)))
  }

  function LittleEndian(n: nat): (b: seq<Byte>)
    requires n < 0x1_0000_0000
    ensures |b| == 4
  {
    var n1 := n / 0x100;
    var n2 := n1 / 0x100;
    [n % 0x100, n1 % 0x100, n2 % 0x100, n2 / 0x100]
  }

  lemma NumberOfLength(n: nat)
    requires n < 0x1_0000_0000
    ensures Number(LittleEndian(n)) == n
  {
  }

  lemma ByteInFront(b: Byte, n: nat)
    ensures (b as int + 0x100 * n) % 0x100 == b && (b as int + 0x100 * n) / 0x100 == n
  {
  }

  lemma LengthsAreDistinct(b: seq<Byte>)
    requires |b| == 4
    ensures LittleEndian(Number(b)) == b
    ensures Number(b) == b[0] as int + 0x100 * b[1] as int + 0x1_0000 * b[2] as int + 0x100_0000 * b[3] as int
  {
    ByteInFront(b[2], b[3]);
    ByteInFront(b[1], b[2] as int + 0x100 * (b[3] as int));
    ByteInFront(b[0], b[1] as int + 0x100 * (b[2] as int + 0x100 * (b[3] as int)));
  }

  // The stream.

  /** How one read of the stream turns out: how many bytes at most beyond the first, or an error. */
  datatype Turn = Short(extra: nat) | Interrupt | Fail

  datatype Got = Bytes(n: nat) | Interrupted | Failed

  /** The turns used between two states of a script. */
  ghost function Spent(before: seq<Turn>, after: seq<Turn>): seq<Turn> {
    before[..if |after| <= |before| then |before| - |after| else 0]
  }

  ghost predicate Later(before: seq<Turn>, after: seq<Turn>) {
    |after| <= |before| && after == before[|before| - |after|..]
  }

  /** One turn at most, and never for nothing: it is spent, or a byte is delivered. */
  ghost predicate OneTurn(before: seq<Turn>, after: seq<Turn>) {
    after == if before == [] then [] else before[1..]
  }

  lemma SpentIsPrefix(first: seq<Turn>, middle: seq<Turn>, last: seq<Turn>)
    requires Later(first, middle) && OneTurn(middle, last)
    ensures Later(first, last) && |last| == if middle == [] then 0 else |middle| - 1
    ensures Spent(first, last) == Spent(first, middle) + if middle == [] then [] else [middle[0]]
  {
  }

  lemma NothingSpent(script: seq<Turn>)
    ensures Later(script, script) && Spent(script, script) == []
  {
  }

  class ReadStream {
    var data: seq<Byte>       // what the peer has sent and nobody has read
    var script: seq<Turn>     // how the next reads turn out; after the last one they deliver all they can

    constructor (data: seq<Byte>, script: seq<Turn>)
      ensures this.data == data && this.script == script
    {
      this.data, this.script := data, script;
    }

    /** A read into `buf[at..]`: zero bytes only at the end of the stream. */
    method Read(buf: array<Byte>, at: nat) returns (got: Got)
      requires at < buf.Length
      modifies this, buf
      ensures OneTurn(old(script), script)
      ensures got.Failed? <==> old(script) != [] && old(script)[0].Fail?
      ensures got.Interrupted? <==> old(script) != [] && old(script)[0].Interrupt?
      ensures !got.Bytes? ==> data == old(data) && buf[..] == old(buf[..])
      ensures got.Bytes? ==>
        got.n <= buf.Length - at && got.n <= |old(data)| && (got.n == 0 <==> old(data) == [])
        && data == old(data)[got.n..]
        && buf[..] == old(buf[..at]) + old(data)[..got.n] + old(buf[at..])[got.n..]
    {
      var most := buf.Length - at;
      if script != [] {
        var turn := script[0];
        script := script[1..];
        match turn
        case Interrupt => return Interrupted;
        case Fail => return Failed;
        case Short(extra) => most := if extra + 1 < most then extra + 1 else most;
      }
      var n := if |data| < most then |data| else most;
      forall i | 0 <= i < n {
        buf[at + i] := data[i];
      }
      data := data[n..];
      got := Bytes(n);
    }
  }

  /** What has been read between two states of a stream. */
  ghost function Taken(before: seq<Byte>, after: seq<Byte>): seq<Byte> {
    before[..if |after| <= |before| then |before| - |after| else 0]
  }

  ghost predicate TakenFrom(before: seq<Byte>, after: seq<Byte>) {
    |after| <= |before| && before == Taken(before, after) + after
  }

  datatype Filling = Filled | OutOfBytes | Broken

  /** Fills the whole buffer, whatever the reads look like, or says why it could not. */
  method ReadExactOrTruncated(r: ReadStream, buf: array<Byte>) returns (result: Filling)
    modifies r, buf
    ensures Later(old(r.script), r.script)
    ensures result.Broken? <==> Fail in Spent(old(r.script), r.script)
    ensures result.Filled? ==> buf.Length <= |old(r.data)| && buf[..] == old(r.data)[..buf.Length]
                               && r.data == old(r.data)[buf.Length..]
    ensures result.OutOfBytes? ==> |old(r.data)| < buf.Length && r.data == []
    ensures result.Broken? ==> TakenFrom(old(r.data), r.data) && |old(r.data)| - |r.data| < buf.Length
  {
    hide Later, Spent, OneTurn;
    NothingSpent(r.script);
    var got := 0;
    while got < buf.Length
      invariant 0 <= got <= buf.Length && got <= |old(r.data)|
      invariant buf[..got] == old(r.data)[..got] && r.data == old(r.data)[got..]
      invariant Later(old(r.script), r.script) && Fail !in Spent(old(r.script), r.script)
      decreases |r.script| + |r.data|
    {
      ghost var script, data := r.script, r.data;
      var n := r.Read(buf, got);
      SpentIsPrefix(old(r.script), script, r.script);
      match n
      case Bytes(k) =>
        if k == 0 {
          return OutOfBytes;
        }
        assert old(r.data)[..got] + data[..k] == old(r.data)[..got + k];
        got := got + k;
      case Interrupted =>
      case Failed =>
        return Broken;
    }
    assert buf[..] == buf[..got];
    return Filled;
  }

  datatype Reading<F> =
    | End                      // the peer hung up between frames
    | Frame(frame: F)
    | Truncated
    | TooLarge(announced: nat)
    | NotJson
    | Io

  datatype Parsed<F> = Parsed(reading: Reading<F>, rest: seq<Byte>)

  /** One frame off the front of the bytes a peer has sent. */
  function ParseOne<F>(data: seq<Byte>, parse: seq<Byte> -> Option<F>): (p: Parsed<F>)
    ensures |p.rest| <= |data| && !p.reading.Io?
    ensures p.reading.Frame? ==> |p.rest| < |data|
  {
    if data == [] then Parsed(End, [])
    else if |data| < 4 then Parsed(Truncated, [])
    else
      var n := Number(data[..4]);
      if n > MAX_FRAME_BYTES then Parsed(TooLarge(n), data[4..])
      else if |data| - 4 < n then Parsed(Truncated, [])
      else
        var frame := parse(data[4..4 + n]);
        Parsed(if frame.Some? then Frame(frame.value) else NotJson, data[4 + n..])
  }

  lemma NoLength<F>(data: seq<Byte>, parse: seq<Byte> -> Option<F>)
    requires |data| < 4
    ensures ParseOne(data, parse) == Parsed(if data == [] then End else Truncated, [])
  {
  }

  lemma AfterLength<F>(data: seq<Byte>, parse: seq<Byte> -> Option<F>)
    requires |data| >= 4
    ensures var (n, rest) := (Number(data[..4]), data[4..]);
      ParseOne(data, parse) ==
        if n > MAX_FRAME_BYTES then Parsed(TooLarge(n), rest)
        else if |rest| < n then Parsed(Truncated, [])
        else Parsed(if parse(rest[..n]).Some? then Frame(parse(rest[..n]).value) else NotJson, rest[n..])
  {
    hide Number;
    var n := Number(data[..4]);
    if n <= |data| - 4 {
      assert data[4..][..n] == data[4..4 + n] && data[4..][n..] == data[4 + n..];
    }
  }

  /** Less than one frame. */
  ghost predicate Incomplete<F>(data: seq<Byte>, parse: seq<Byte> -> Option<F>) {
    ParseOne(data, parse).reading.End? || ParseOne(data, parse).reading.Truncated?
  }

  lemma CutInLength<F>(sent: seq<Byte>, got: nat, parse: seq<Byte> -> Option<F>)
    requires got < 4 && got <= |sent|
    ensures TakenFrom(sent, sent[got..]) && Incomplete(Taken(sent, sent[got..]), parse)
  {
    assert Taken(sent, sent[got..]) == sent[..got];
    NoLength(sent[..got], parse);
  }

  lemma CutInBody<F>(sent: seq<Byte>, rest: seq<Byte>, parse: seq<Byte> -> Option<F>)
    requires |sent| >= 4 && TakenFrom(sent[4..], rest) && |sent[4..]| - |rest| < Number(sent[..4]) <= MAX_FRAME_BYTES
    ensures TakenFrom(sent, rest) && Incomplete(Taken(sent, rest), parse)
  {
    hide Number;
    var front := Taken(sent, rest);
    assert sent == sent[..4] + sent[4..] && front == sent[..4] + Taken(sent[4..], rest);
    assert front[..4] == sent[..4];
    AfterLength(front, parse);
    hide ParseOne;
  }

  lemma SpentInTwo(first: seq<Turn>, middle: seq<Turn>, last: seq<Turn>)
    requires Later(first, middle) && Later(middle, last)
    ensures Later(first, last) && Spent(first, last) == Spent(first, middle) + Spent(middle, last)
  {
  }

  /** The reads may be as short as they like: a frame is what the bytes say, and no byte beyond it is taken. */
  method ReadFrame<F>(r: ReadStream, parse: seq<Byte> -> Option<F>) returns (result: Reading<F>)
    modifies r
    ensures Later(old(r.script), r.script)
    ensures result.Io? <==> Fail in Spent(old(r.script), r.script)
    ensures !result.Io? ==> Parsed(result, r.data) == ParseOne(old(r.data), parse)
    ensures result.Io? ==> TakenFrom(old(r.data), r.data) && Incomplete(Taken(old(r.data), r.data), parse)
  {
    hide Number, ParseOne, Later, Spent, OneTurn, Taken, TakenFrom, Incomplete;
    NothingSpent(r.script);
    var lenBuf := new Byte[4](_ => 0);
    ghost var sent := r.data;
    var got := 0;
    while got < 4
      invariant 0 <= got <= 4 && got <= |sent|
      invariant lenBuf[..got] == sent[..got] && r.data == sent[got..]
      invariant Later(old(r.script), r.script) && Fail !in Spent(old(r.script), r.script)
      decreases |r.script| + |r.data|
    {
      ghost var script, data := r.script, r.data;
      var n := r.Read(lenBuf, got);
      SpentIsPrefix(old(r.script), script, r.script);
      match n
      case Bytes(k) =>
        if k == 0 {
          NoLength(sent, parse);
          return if got == 0 then End else Truncated;
        }
        assert sent[..got] + data[..k] == sent[..got + k];
        got := got + k;
      case Interrupted =>
      case Failed =>
        CutInLength(sent, got, parse);
        return Io;
    }

    assert lenBuf[..] == sent[..4];
    AfterLength(sent, parse);
    var len := Number(lenBuf[..]);
    if len > MAX_FRAME_BYTES {
      return TooLarge(len);
    }

    var body := new Byte[len](_ => 0);
    ghost var script := r.script;
    var filling := ReadExactOrTruncated(r, body);
    SpentInTwo(old(r.script), script, r.script);
    match filling
    case OutOfBytes => return Truncated;
    case Broken =>
      CutInBody(sent, r.data, parse);
      return Io;
    case Filled =>
      var frame := parse(body[..]);
      return if frame.Some? then Frame(frame.value) else NotJson;
  }

  // The sender's side.

  /** How the next writes turn out: all of it, or an error after some bytes. */
  class WriteStream {
    var sent: seq<Byte>
    var faults: seq<Option<nat>>

    constructor (faults: seq<Option<nat>>)
      ensures sent == [] && this.faults == faults
    {
      sent, this.faults := [], faults;
    }

    method WriteAll(bytes: seq<Byte>) returns (ok: bool)
      modifies this
      ensures ok <==> old(faults) == [] || old(faults)[0].None?
      ensures faults == if old(faults) == [] then [] else old(faults)[1..]
      ensures ok ==> sent == old(sent) + bytes
      ensures !ok ==> exists k :: 0 <= k <= |bytes| && sent == old(sent) + bytes[..k]
    {
      var fault := if faults == [] then None else faults[0];
      faults := if faults == [] then [] else faults[1..];
      ok := fault.None?;
      var k := if ok || fault.value > |bytes| then |bytes| else fault.value;
      assert bytes[..|bytes|] == bytes;
      sent := sent + bytes[..k];
    }
  }

  function Encode(body: seq<Byte>): seq<Byte>
    requires |body| <= MAX_FRAME_BYTES
  {
    LittleEndian(|body|) + body
  }

  datatype Writing = Written | Oversized(size: nat) | NoJson | WriteError

  /** The frame has an encoding within the limit, and the writes it takes and the flush succeed. */
  ghost predicate GoesOut<F>(frame: F, encode: F -> Option<seq<Byte>>, faults: seq<Option<nat>>, flushOk: bool) {
    && encode(frame).Some? && |encode(frame).value| <= MAX_FRAME_BYTES
    && (forall i | 0 <= i < 2 && i < |faults| :: faults[i].None?) && flushOk
  }

  /** A frame goes out whole exactly if nothing fails; otherwise not at all, or the pipe broke after a part of it. */
  method WriteFrame<F>(w: WriteStream, frame: F, encode: F -> Option<seq<Byte>>, flushOk: bool)
    returns (result: Writing)
    modifies w
    ensures result.NoJson? <==> encode(frame).None?
    ensures result.Oversized? <==> encode(frame).Some? && |encode(frame).value| > MAX_FRAME_BYTES
    ensures result.NoJson? || result.Oversized? ==> w.sent == old(w.sent)
    ensures result.Oversized? ==>
      result.size == if |encode(frame).value| < 0x1_0000_0000 then |encode(frame).value| else 0xFFFF_FFFF
    ensures result.Written? || result.WriteError? ==> |encode(frame).value| <= MAX_FRAME_BYTES
    ensures result.Written? <==> GoesOut(frame, encode, old(w.faults), flushOk)
    ensures result.Written? ==> w.sent == old(w.sent) + Encode(encode(frame).value)
    ensures result.WriteError? ==> exists k ::
      0 <= k <= |Encode(encode(frame).value)| && w.sent == old(w.sent) + Encode(encode(frame).value)[..k]
  {
    var json := encode(frame);
    if json.None? {
      return NoJson;
    }
    var body := json.value;
    if |body| >= 0x1_0000_0000 {
      return Oversized(0xFFFF_FFFF);
    }
    var len := |body|;
    if len > MAX_FRAME_BYTES {
      return Oversized(len);
    }
    ghost var whole := Encode(body);
    var ok := w.WriteAll(LittleEndian(len));
    if !ok {
      ghost var k :| 0 <= k <= 4 && w.sent == old(w.sent) + LittleEndian(len)[..k];
      assert w.sent == old(w.sent) + whole[..k];
      return WriteError;
    }
    ok := w.WriteAll(body);
    if !ok {
      ghost var k :| 0 <= k <= |body| && w.sent == old(w.sent) + LittleEndian(len) + body[..k];
      assert w.sent == old(w.sent) + whole[..4 + k];
      return WriteError;
    }
    assert w.sent == old(w.sent) + whole && whole[..|whole|] == whole;
    return if flushOk then Written else WriteError;
  }

  // What a whole conversation reads as.

  /** The bodies a sender put on the stream, one after the other. */
  function Stream(bodies: seq<seq<Byte>>): (r: seq<Byte>)
    requires forall b | b in bodies :: |b| <= MAX_FRAME_BYTES
  {
    if bodies == [] then [] else Encode(bodies[0]) + Stream(bodies[1..])
  }

  datatype Conversation<F> = Conversation(frames: seq<F>, last: Reading<F>, rest: seq<Byte>)

  /** Reading frames until something else turns up. */
  function ReadAll<F>(data: seq<Byte>, parse: seq<Byte> -> Option<F>): (c: Conversation<F>)
    ensures |c.rest| <= |data| && !c.last.Io? && !c.last.Frame?
    decreases |data|
  {
    var p := ParseOne(data, parse);
    if p.reading.Frame? then
      var c := ReadAll(p.rest, parse);
      c.(frames := [p.reading.frame] + c.frames)
    else
      Conversation([], p.reading, p.rest)
  }

  ghost predicate Sendable<F>(bodies: seq<seq<Byte>>, parse: seq<Byte> -> Option<F>) {
    forall b | b in bodies :: |b| <= 1_048_576 && parse(b).Some?
  }

  function Frames<F>(bodies: seq<seq<Byte>>, parse: seq<Byte> -> Option<F>): seq<F>
    requires Sendable(bodies, parse)
  {
    seq(|bodies|, i requires 0 <= i < |bodies| => parse(bodies[i]).value)
  }

  lemma OneFrame<F>(body: seq<Byte>, more: seq<Byte>, parse: seq<Byte> -> Option<F>)
    requires |body| <= MAX_FRAME_BYTES && parse(body).Some?
    ensures ParseOne(Encode(body) + more, parse) == Parsed(Frame(parse(body).value), more)
  {
    hide Number, LittleEndian;
    var data := Encode(body) + more;
    NumberOfLength(|body|);
    assert data[..4] == LittleEndian(|body|) && data[4..4 + |body|] == body && data[4 + |body|..] == more;
  }

  lemma FrameThenMore<F>(data: seq<Byte>, frame: F, more: seq<Byte>, parse: seq<Byte> -> Option<F>)
    requires ParseOne(data, parse) == Parsed(Frame(frame), more)
    ensures var (c, d) := (ReadAll(data, parse), ReadAll(more, parse));
      c.frames == [frame] + d.frames && c.last == d.last && c.rest == d.rest
  {
    hide ParseOne;
  }

  /** Frames in front are read, and do not change how the rest is read. */
  lemma {:induction false} FramesThenMore<F>(bodies: seq<seq<Byte>>, more: seq<Byte>, parse: seq<Byte> -> Option<F>)
    requires Sendable(bodies, parse)
    ensures var (c, d) := (ReadAll(Stream(bodies) + more, parse), ReadAll(more, parse));
      c.frames == Frames(bodies, parse) + d.frames && c.last == d.last && c.rest == d.rest
  {
    hide ParseOne, Encode, ReadAll, Stream, Frames;
    if bodies == [] {
      NoFrames(more, parse);
    } else {
      var tail := bodies[1..];
      FramesThenMore(tail, more, parse);
      FirstFrame(bodies, more, parse);
      OneFrame(bodies[0], Stream(tail) + more, parse);
      FrameThenMore(Stream(bodies) + more, parse(bodies[0]).value, Stream(tail) + more, parse);
    }
  }

  lemma NoFrames<F>(more: seq<Byte>, parse: seq<Byte> -> Option<F>)
    ensures Stream([]) + more == more && Frames([], parse) == []
  {
  }

  lemma FirstFrame<F>(bodies: seq<seq<Byte>>, more: seq<Byte>, parse: seq<Byte> -> Option<F>)
    requires bodies != [] && Sendable(bodies, parse)
    ensures Stream(bodies) + more == Encode(bodies[0]) + (Stream(bodies[1..]) + more)
    ensures Frames(bodies, parse) == [parse(bodies[0]).value] + Frames(bodies[1..], parse)
  {
    hide Encode;
  }

  /** How many frames lie wholly within the first `cut` bytes. */
  function WholeFrames(bodies: seq<seq<Byte>>, cut: nat): (k: nat)
    requires forall b | b in bodies :: |b| <= MAX_FRAME_BYTES
    ensures k <= |bodies| && |Stream(bodies[..k])| <= cut
    ensures k < |bodies| ==> cut < |Stream(bodies[..k + 1])|
  {
    if bodies == [] || cut < 4 + |bodies[0]| then
      assert bodies != [] ==> bodies[..1][0] == bodies[0] && bodies[..1][1..] == [];
      0
    else
      var k := WholeFrames(bodies[1..], cut - (4 + |bodies[0]|));
      assert bodies[..k + 1][1..] == bodies[1..][..k];
      assert k < |bodies| - 1 ==> bodies[..k + 2][1..] == bodies[1..][..k + 1];
      k + 1
  }

  lemma {:induction false} StreamConcat(a: seq<seq<Byte>>, b: seq<seq<Byte>>)
    requires forall x | x in a + b :: |x| <= MAX_FRAME_BYTES
    ensures (forall x | x in a :: x in a + b) && (forall x | x in b :: x in a + b)
    ensures Stream(a + b) == Stream(a) + Stream(b)
  {
    assert forall x | x in b :: x in a + b;
    if a == [] {
      assert a + b == b;
    } else {
      assert (a + b)[1..] == a[1..] + b;
      StreamConcat(a[1..], b);
    }
  }

  lemma FrameCutShort<F>(body: seq<Byte>, cut: nat, parse: seq<Byte> -> Option<F>)
    requires |body| <= MAX_FRAME_BYTES && cut < |Encode(body)|
    ensures ParseOne(Encode(body)[..cut], parse) == Parsed(if cut == 0 then End else Truncated, [])
  {
    hide Number, LittleEndian;
    var data := Encode(body)[..cut];
    NumberOfLength(|body|);
    assert cut >= 4 ==> data[..4] == LittleEndian(|body|);
  }

  /**
   A stream of frames cut anywhere reads as exactly the frames that arrived whole. It ends cleanly if the cut
   falls between two frames, and as truncated if it falls inside one.
   */
  lemma CutAnywhere<F>(bodies: seq<seq<Byte>>, cut: nat, parse: seq<Byte> -> Option<F>)
    requires Sendable(bodies, parse) && cut <= |Stream(bodies)|
    ensures var k := WholeFrames(bodies, cut);
      ReadAll(Stream(bodies)[..cut], parse)
      == Conversation(Frames(bodies[..k], parse), if cut == |Stream(bodies[..k])| then End else Truncated, [])
  {
    hide ParseOne, Encode, WholeFrames, Stream, ReadAll;
    var k := WholeFrames(bodies, cut);
    var (whole, others) := (bodies[..k], bodies[k..]);
    assert bodies == whole + others;
    StreamConcat(whole, others);
    var extra := Stream(others)[..cut - |Stream(whole)|];
    assert Stream(bodies)[..cut] == Stream(whole) + extra;
    FramesThenMore(whole, extra, parse);
    RemainderReads(bodies, k, cut, extra, parse);
    assert Frames(whole, parse) + [] == Frames(whole, parse);
  }

  lemma RemainderReads<F>(bodies: seq<seq<Byte>>, k: nat, cut: nat, extra: seq<Byte>, parse: seq<Byte> -> Option<F>)
    requires Sendable(bodies, parse) && k <= |bodies|
    requires |Stream(bodies[..k])| <= cut && (k < |bodies| ==> cut < |Stream(bodies[..k + 1])|)
    requires cut - |Stream(bodies[..k])| <= |Stream(bodies[k..])|
    requires extra == Stream(bodies[k..])[..cut - |Stream(bodies[..k])|]
    ensures ReadAll(extra, parse) == Conversation([], if extra == [] then End else Truncated, [])
  {
    hide Number, LittleEndian;
    if k < |bodies| {
      LastFrameCut(bodies, k, cut, parse);
      FrameCutShort(bodies[k], |extra|, parse);
    }
  }

  lemma LastFrameCut<F>(bodies: seq<seq<Byte>>, k: nat, cut: nat, parse: seq<Byte> -> Option<F>)
    requires Sendable(bodies, parse) && k < |bodies|
    requires |Stream(bodies[..k])| <= cut < |Stream(bodies[..k + 1])|
    requires cut - |Stream(bodies[..k])| <= |Stream(bodies[k..])|
    ensures cut - |Stream(bodies[..k])| < |Encode(bodies[k])| <= |Stream(bodies[k..])|
    ensures Stream(bodies[k..])[..cut - |Stream(bodies[..k])|] == Encode(bodies[k])[..cut - |Stream(bodies[..k])|]
  {
    assert bodies[..k + 1] == bodies[..k] + [bodies[k]];
    StreamConcat(bodies[..k], [bodies[k]]);
    assert Stream([bodies[k]]) == Encode(bodies[k]) + Stream([]);
    assert bodies[k..][0] == bodies[k];
  }

  /** Every list of bodies within the limit reads back as itself, and then the stream ends cleanly. */
  lemma {:induction false} FramesRoundTrip<F>(bodies: seq<seq<Byte>>, parse: seq<Byte> -> Option<F>)
    requires Sendable(bodies, parse)
    ensures ReadAll(Stream(bodies), parse) == Conversation(Frames(bodies, parse), End, [])
  {
    FramesThenMore(bodies, [], parse);
    assert Stream(bodies) + [] == Stream(bodies);
    assert Frames(bodies, parse) + [] == Frames(bodies, parse);
  }

  /** An announced length over the limit is refused with the whole of what follows still unread. */
  lemma TooLargeIsRefused<F>(bodies: seq<seq<Byte>>, n: nat, more: seq<Byte>, parse: seq<Byte> -> Option<F>)
    requires Sendable(bodies, parse) && 1_048_576 < n < 0x1_0000_0000
    ensures ReadAll(Stream(bodies) + LittleEndian(n) + more, parse)
         == Conversation(Frames(bodies, parse), TooLarge(n), more)
  {
    hide Number, LittleEndian;
    var tail := LittleEndian(n) + more;
    NumberOfLength(n);
    assert tail[..4] == LittleEndian(n) && tail[4..] == more;
    FramesThenMore(bodies, tail, parse);
    assert Stream(bodies) + LittleEndian(n) + more == Stream(bodies) + tail;
    assert Frames(bodies, parse) + [] == Frames(bodies, parse);
  }

  /** These bodies lead the bytes, and are what the frames were read from. */
  ghost predicate FramedBy<F>(data: seq<Byte>, parse: seq<Byte> -> Option<F>, bodies: seq<seq<Byte>>) {
    && Sendable(bodies, parse) && Stream(bodies) <= data
    && ReadAll(data, parse).frames == Frames(bodies, parse)
    && (ReadAll(data, parse).last.End? <==> Stream(bodies) == data)
  }

  /** Whatever a peer sends, only what it framed is read. */
  lemma {:induction false} NoWrongFrame<F>(data: seq<Byte>, parse: seq<Byte> -> Option<F>)
    ensures exists bodies :: FramedBy(data, parse, bodies)
    decreases |data|
  {
    if ParseOne(data, parse).reading.Frame? {
      hide FramedBy;
      NoWrongFrame(ParseOne(data, parse).rest, parse);
      var tail :| FramedBy(ParseOne(data, parse).rest, parse, tail);
      var bodies := FramedOneMore(data, parse, tail);
    } else {
      assert FramedBy(data, parse, []);
    }
  }

  lemma FramedOneMore<F>(data: seq<Byte>, parse: seq<Byte> -> Option<F>, tail: seq<seq<Byte>>)
    returns (bodies: seq<seq<Byte>>)
    requires ParseOne(data, parse).reading.Frame? && FramedBy(ParseOne(data, parse).rest, parse, tail)
    ensures FramedBy(data, parse, bodies)
  {
    hide ParseOne, Encode, ReadAll, Stream;
    var p := ParseOne(data, parse);
    var body := FrameInFront(data, parse);
    bodies := [body] + tail;
    FrameThenMore(data, p.reading.frame, p.rest, parse);
    assert Frames(bodies, parse) == [parse(body).value] + Frames(tail, parse);
    PrefixAfterFrame(body, tail, p.rest);
  }

  lemma PrefixAfterFrame(body: seq<Byte>, tail: seq<seq<Byte>>, rest: seq<Byte>)
    requires |body| <= MAX_FRAME_BYTES && forall b | b in tail :: |b| <= MAX_FRAME_BYTES
    requires Stream(tail) <= rest
    ensures Stream([body] + tail) <= Encode(body) + rest
    ensures Stream([body] + tail) == Encode(body) + rest <==> Stream(tail) == rest
  {
    hide Encode;
    assert ([body] + tail)[1..] == tail;
    assert Encode(body) + rest[..|Stream(tail)|] == (Encode(body) + rest)[..|Encode(body)| + |Stream(tail)|];
  }

  /** Whole frames and nothing else, whatever comes behind them. */
  ghost predicate Framed<F>(data: seq<Byte>, parse: seq<Byte> -> Option<F>, frames: seq<F>) {
    exists bodies :: FramedAs(data, parse, frames, bodies)
  }

  ghost predicate FramedAs<F>(data: seq<Byte>, parse: seq<Byte> -> Option<F>, frames: seq<F>, bodies: seq<seq<Byte>>) {
    Sendable(bodies, parse) && Stream(bodies) == data && Frames(bodies, parse) == frames
  }

  lemma NothingFramed<F>(parse: seq<Byte> -> Option<F>)
    ensures Framed([], parse, [])
  {
    assert FramedAs([], parse, [], []);
  }

  lemma FrameReadToo<F>(front: seq<Byte>, frames: seq<F>, data: seq<Byte>, parse: seq<Byte> -> Option<F>)
    requires Framed(front, parse, frames) && ParseOne(data, parse).reading.Frame?
    ensures var p := ParseOne(data, parse);
      TakenFrom(data, p.rest) && Framed(front + Taken(data, p.rest), parse, frames + [p.reading.frame])
  {
    var bodies :| FramedAs(front, parse, frames, bodies);
    var body := FrameInFront(data, parse);
    hide ParseOne, Encode;
    TakenIs(Encode(body), ParseOne(data, parse).rest);
    FramedAlso(front, frames, bodies, body, parse);
  }

  lemma TakenIs(front: seq<Byte>, rest: seq<Byte>)
    ensures Taken(front + rest, rest) == front && TakenFrom(front + rest, rest)
  {
  }

  lemma FramedAlso<F>(front: seq<Byte>, frames: seq<F>, bodies: seq<seq<Byte>>, body: seq<Byte>,
                      parse: seq<Byte> -> Option<F>)
    requires FramedAs(front, parse, frames, bodies) && |body| <= MAX_FRAME_BYTES && parse(body).Some?
    ensures FramedAs(front + Encode(body), parse, frames + [parse(body).value], bodies + [body])
  {
    hide Encode;
    var more := bodies + [body];
    StreamConcat(bodies, [body]);
    StreamOfOne(body);
    assert Frames(more, parse) == Frames(bodies, parse) + [parse(body).value];
  }

  lemma StreamOfOne(body: seq<Byte>)
    requires |body| <= MAX_FRAME_BYTES
    ensures Stream([body]) == Encode(body)
  {
    hide Encode;
    assert [body][1..] == [];
  }

  /** Whole frames, and then less than one: exactly those frames are read. */
  lemma FramedThenCut<F>(front: seq<Byte>, frames: seq<F>, behind: seq<Byte>, parse: seq<Byte> -> Option<F>)
    requires Framed(front, parse, frames) && Incomplete(behind, parse)
    ensures ReadAll(front + behind, parse).frames == frames
  {
    var bodies :| FramedAs(front, parse, frames, bodies);
    FramesThenMore(bodies, behind, parse);
    hide ParseOne;
    assert ReadAll(behind, parse).frames == [];
  }

  lemma FrameInFront<F>(data: seq<Byte>, parse: seq<Byte> -> Option<F>) returns (body: seq<Byte>)
    requires ParseOne(data, parse).reading.Frame?
    ensures |body| <= MAX_FRAME_BYTES && parse(body).Some?
    ensures ParseOne(data, parse).reading.frame == parse(body).value
    ensures data == Encode(body) + ParseOne(data, parse).rest
  {
    hide Number, LittleEndian;
    var n := Number(data[..4]);
    body := data[4..4 + n];
    LengthsAreDistinct(data[..4]);
  }
}
