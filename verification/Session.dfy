/**
 One plugin's session, from the bytes on the pipe to the records that go out: `handle_session`,
 `validate_handshake` and the attribution of `emit_event` in src/plugin/server.rs.
 */
module Session {
  import opened Options
  import opened Framing
  import opened Manifests
  import opened Sorting
  import opened Text

  type Byte = Framing.Byte

  const SCHEMA_VERSION: nat := 1

  datatype PluginEvent = PluginEvent(seqNo: nat, tsUnixNs: nat, kind: string, payload: string)

  datatype ClientFrame =
    | Hello(pluginId: string, pluginVersion: string, schemaVersion: nat)
    | Event(event: PluginEvent)
    | Heartbeat(seqNo: nat)
    | Goodbye

  datatype RejectReason =
    | BadHandshake
    | SchemaMismatch
    | UnknownPluginId
    | PathMismatch
    | HashMismatch
    | SignatureInvalid
    | Revoked

  datatype ServerFrame =
    | HelloAck(sessionId: string, maxPayloadBytes: nat)
    | Reject(reason: RejectReason)

  /** What the operating system says about the process at the other end of the pipe. */
  datatype Identity = Identity(pid: nat, imagePath: string)

  /** Unicode lower case, the hash of a file as hex, and whether a file's signature verifies. */
  datatype Host = Host(lower: string -> string, hexSha256: string -> Option<string>, signatureOk: string -> bool)

  predicate EqualIgnoringAsciiCase(a: string, b: string) {
    |a| == |b| && forall i | 0 <= i < |a| :: AsciiLower(a[i]) == AsciiLower(b[i])
  }

  predicate PathsMatch(host: Host, a: string, b: string) {
    host.lower(a) == host.lower(b)
  }

  predicate HashOk(host: Host, m: Manifest, path: string) {
    m.expectedSha256.Some? ==>
      host.hexSha256(path).Some? && EqualIgnoringAsciiCase(host.hexSha256(path).value, m.expectedSha256.value)
  }

  predicate SignatureOk(host: Host, m: Manifest, path: string) {
    m.expectedSigner.Some? ==> host.signatureOk(path)
  }

  datatype Handshake = Bound(manifest: Manifest) | Refused(reason: RejectReason)

  /** The checks, in the order in which they are made. */
  const CHECKS: seq<RejectReason> :=
    [SchemaMismatch, UnknownPluginId, Revoked, PathMismatch, HashMismatch, SignatureInvalid]

  predicate Passes(check: RejectReason, hello: ClientFrame, identity: Identity, store: Store, host: Host)
    requires hello.Hello?
  {
    match check
    case BadHandshake => true
    case SchemaMismatch => hello.schemaVersion == SCHEMA_VERSION
    case UnknownPluginId => hello.pluginId in store
    case Revoked => hello.pluginId in store ==> !store[hello.pluginId].revoked
    case PathMismatch =>
      hello.pluginId in store ==> PathsMatch(host, identity.imagePath, store[hello.pluginId].expectedPath)
    case HashMismatch => hello.pluginId in store ==> HashOk(host, store[hello.pluginId], identity.imagePath)
    case SignatureInvalid => hello.pluginId in store ==> SignatureOk(host, store[hello.pluginId], identity.imagePath)
  }

  predicate FailsFirst(k: nat, hello: ClientFrame, identity: Identity, store: Store, host: Host)
    requires hello.Hello? && k < |CHECKS|
  {
    && !Passes(CHECKS[k], hello, identity, store, host)
    && forall j | 0 <= j < k :: Passes(CHECKS[j], hello, identity, store, host)
  }

  /** A client is bound to the manifest it names if every check passes, or told the first one that does not. */
  function ValidateHandshake(hello: ClientFrame, identity: Identity, store: Store, host: Host): (r: Handshake)
    requires hello.Hello?
    ensures r.Bound? <==> forall k | 0 <= k < |CHECKS| :: Passes(CHECKS[k], hello, identity, store, host)
    ensures r.Bound? ==> hello.pluginId in store && r.manifest == store[hello.pluginId]
    ensures r.Refused? ==> exists k | 0 <= k < |CHECKS| ::
      r.reason == CHECKS[k] && FailsFirst(k, hello, identity, store, host)
  {
    assert CHECKS[0] == SchemaMismatch && CHECKS[1] == UnknownPluginId && CHECKS[2] == Revoked;
    assert CHECKS[3] == PathMismatch && CHECKS[4] == HashMismatch && CHECKS[5] == SignatureInvalid;
    if hello.schemaVersion != SCHEMA_VERSION then Refused(SchemaMismatch)
    else if hello.pluginId !in store then Refused(UnknownPluginId)
    else
      var manifest := store[hello.pluginId];
      if manifest.revoked then Refused(Revoked)
      else if !PathsMatch(host, identity.imagePath, manifest.expectedPath) then Refused(PathMismatch)
      else if !HashOk(host, manifest, identity.imagePath) then Refused(HashMismatch)
      else if !SignatureOk(host, manifest, identity.imagePath) then Refused(SignatureInvalid)
      else Bound(manifest)
  }

  predicate SameLetter(a: char, b: char) {
    a == b || ('A' <= a <= 'Z' && b as int == a as int + 32) || ('A' <= b <= 'Z' && a as int == b as int + 32)
  }

  /** The texts are the same but for the case of letters A to Z. */
  predicate SameText(a: string, b: string) {
    |a| == |b| && forall i | 0 <= i < |a| :: SameLetter(a[i], b[i])
  }

  lemma CaseIsIgnored(a: string, b: string)
    ensures EqualIgnoringAsciiCase(a, b) <==> SameText(a, b)
  {
    forall i | 0 <= i < |a| && |a| == |b|
      ensures AsciiLower(a[i]) == AsciiLower(b[i]) <==> SameLetter(a[i], b[i])
    {
    }
    hide AsciiLower, SameLetter;
  }

  /** Who is let in, in terms of what the client says, what the system says about it, and the manifest. */
  lemma AdmittedExactlyWhen(hello: ClientFrame, identity: Identity, store: Store, host: Host)
    requires hello.Hello?
    ensures ValidateHandshake(hello, identity, store, host).Bound? <==>
      && hello.schemaVersion == 1
      && hello.pluginId in store
      && var (m, path) := (store[hello.pluginId], identity.imagePath);
      && !m.revoked
      && host.lower(path) == host.lower(m.expectedPath)
      && (m.expectedSha256.Some? ==>
            host.hexSha256(path).Some? && SameText(host.hexSha256(path).value, m.expectedSha256.value))
      && (m.expectedSigner.Some? ==> host.signatureOk(path))
  {
    if hello.pluginId in store {
      var (m, path) := (store[hello.pluginId], identity.imagePath);
      if m.expectedSha256.Some? && host.hexSha256(path).Some? {
        CaseIsIgnored(host.hexSha256(path).value, m.expectedSha256.value);
      }
    }
    hide SameText, EqualIgnoringAsciiCase, Passes;
  }

  /**
   With a store loaded from a directory, every client that is let in runs from the path the manifest gives, is the
   program it pins, by content or by signature, and goes by the id the manifest file is named after.
   */
  lemma AdmittedIsPinned(entries: seq<Entry>, hello: ClientFrame, identity: Identity, store: Store, host: Host)
    requires hello.Hello? && FirstOfEach(entries, store) && ValidateHandshake(hello, identity, store, host).Bound?
    ensures var (m, path) := (ValidateHandshake(hello, identity, store, host).manifest, identity.imagePath);
      && m.pluginId == hello.pluginId && !m.revoked
      && (exists e :: e in entries && e.name == m.pluginId + ".json" && e.value.manifest == Some(m))
      && host.lower(path) == host.lower(m.expectedPath)
      && ((m.expectedSha256.Some? && host.hexSha256(path).Some?
           && SameText(host.hexSha256(path).value, m.expectedSha256.value))
          || host.signatureOk(path))
  {
    AdmittedExactlyWhen(hello, identity, store, host);
    hide SameText;
    var k := FirstThatEnrols(entries, store, hello.pluginId);
    assert entries[k] in entries;
  }

  // The session.

  /** An event as it leaves the agent: the attribution comes from the session, the rest from the plugin. */
  datatype Record = Record(
    pluginId: string,
    pluginName: string,
    pid: nat,
    sessionId: string,
    event: PluginEvent)

  function Attributed(m: Manifest, identity: Identity, sessionId: string, event: PluginEvent): Record {
    Record(m.pluginId, m.name, identity.pid, sessionId, event)
  }

  datatype Ending =
    | NotIdentified
    | Rejected(reason: RejectReason)
    | AckNotSent
    | Served

  /** How a session went, with what it added to the counters. */
  datatype Outcome = Outcome(ending: Ending, emitted: seq<Record>, received: nat, invalid: nat, rejected: nat)

  datatype Service = Service(events: seq<PluginEvent>, invalid: nat)

  /** What the frames after the handshake amount to, given how the stream of frames ends. */
  function Serve(frames: seq<ClientFrame>, last: Reading<ClientFrame>): Service {
    if frames == [] then Service([], if last.End? then 0 else 1)
    else match frames[0]
      case Event(event) =>
        var more := Serve(frames[1..], last);
        Service([event] + more.events, more.invalid)
      case Heartbeat(_) => Serve(frames[1..], last)
      case Hello(_, _, _) => Service([], 1)
      case Goodbye => Service([], 0)
  }

  function Records(m: Manifest, identity: Identity, sessionId: string, events: seq<PluginEvent>): (r: seq<Record>)
    ensures |r| == |events| && forall i | 0 <= i < |r| ::
      r[i].event == events[i] && r[i].pluginId == m.pluginId && r[i].pluginName == m.name
      && r[i].pid == identity.pid && r[i].sessionId == sessionId
  {
    seq(|events|, i requires 0 <= i < |events| => Attributed(m, identity, sessionId, events[i]))
  }

  /** The session of a peer that gets these frames through, given whether it is told that it is let in. */
  function Whole(frames: seq<ClientFrame>, last: Reading<ClientFrame>, identity: Option<Identity>, store: Store,
                 host: Host, sessionId: string, acked: bool): Outcome
  {
    if identity.None? then Outcome(NotIdentified, [], 0, 0, 0)
    else if frames == [] || !frames[0].Hello? then Outcome(Rejected(BadHandshake), [], 0, 0, 1)
    else
      match ValidateHandshake(frames[0], identity.value, store, host)
      case Refused(reason) => Outcome(Rejected(reason), [], 0, 0, 1)
      case Bound(m) =>
        if !acked then Outcome(AckNotSent, [], 0, 0, 0)
        else
          var served := Serve(frames[1..], last);
          Outcome(Served, Records(m, identity.value, sessionId, served.events), |served.events|, served.invalid, 0)
  }

  type Parser = seq<Byte> -> Option<ClientFrame>

  /** The first frame is read, and the rest is what the remaining bytes read as. */
  lemma ReadAllFrames(data: seq<Byte>, parse: Parser)
    ensures var p := ParseOne(data, parse);
      && (p.reading.Frame? ==>
            ReadAll(data, parse).frames == [p.reading.frame] + ReadAll(p.rest, parse).frames
            && ReadAll(data, parse).last == ReadAll(p.rest, parse).last)
      && (!p.reading.Frame? ==> ReadAll(data, parse).frames == [] && ReadAll(data, parse).last == p.reading)
  {
    hide ParseOne;
  }

  function ServeBytes(data: seq<Byte>, parse: Parser): Service {
    Serve(ReadAll(data, parse).frames, ReadAll(data, parse).last)
  }

  lemma ServeNext(data: seq<Byte>, parse: Parser)
    ensures var p: Parsed<ClientFrame> := ParseOne(data, parse);
      ServeBytes(data, parse) ==
        match p.reading
        case Frame(Event(event)) =>
          var more := ServeBytes(p.rest, parse);
          Service([event] + more.events, more.invalid)
        case Frame(Heartbeat(_)) => ServeBytes(p.rest, parse)
        case Frame(Hello(_, _, _)) => Service([], 1)
        case Frame(Goodbye) => Service([], 0)
        case End => Service([], 0)
        case _ => Service([], 1)
  {
    hide ParseOne, ReadAll;
    ReadAllFrames(data, parse);
    var p := ParseOne(data, parse);
    if p.reading.Frame? {
      var rest := ReadAll(p.rest, parse).frames;
      assert ([p.reading.frame] + rest)[1..] == rest;
    }
  }

  /** What a session makes of the bytes, if the pipe holds; if it breaks, of those it had delivered by then. */
  ghost function Delivered(before: seq<Byte>, after: seq<Byte>, broken: bool, parse: Parser): Conversation<ClientFrame> {
    if broken then Conversation(ReadAll(Taken(before, after), parse).frames, Io, after) else ReadAll(before, parse)
  }

  /** The frames of the traffic were delivered whole before the pipe broke in what followed. */
  lemma ServedUntilBroken(front: seq<Byte>, traffic: seq<ClientFrame>, data: seq<Byte>, rest: seq<Byte>, parse: Parser)
    requires Framed(front, parse, traffic) && IsTraffic(traffic)
    requires TakenFrom(data, rest) && Incomplete(Taken(data, rest), parse)
    ensures var c := Delivered(front + data, rest, true, parse);
      TakenFrom(front + data, rest) && Serve(c.frames, c.last) == Service(EventsOf(traffic), 1)
  {
    hide Framed, Incomplete, IsTraffic, Serve, EventsOf, ReadAll;
    var behind := Taken(data, rest);
    assert front + data == (front + behind) + rest;
    TakenIs(front + behind, rest);
    FramedThenCut(front, traffic, behind, parse);
    TrafficIsServed(traffic, [], Io);
    assert traffic + [] == traffic && EventsOf(traffic) + [] == EventsOf(traffic);
    ServeNothing(Io);
  }

  /** The steady state: frames are read and dispatched until something ends the session. */
  method ServeFrames(pipe: ReadStream, manifest: Manifest, identity: Identity, sessionId: string, parse: Parser)
    returns (emitted: seq<Record>, received: nat, invalid: nat)
    modifies pipe
    ensures Later(old(pipe.script), pipe.script)
    ensures var broken := Fail in Spent(old(pipe.script), pipe.script);
      var c := Delivered(old(pipe.data), pipe.data, broken, parse);
      && (broken ==> TakenFrom(old(pipe.data), pipe.data))
      && emitted == Records(manifest, identity, sessionId, Serve(c.frames, c.last).events)
      && received == |emitted| && invalid == Serve(c.frames, c.last).invalid
  {
    hide ParseOne, ReadAll, Later, Spent, Serve, EventsOf, IsTraffic, Framed, Incomplete, Taken, TakenFrom;
    NothingSpent(pipe.script);
    NothingFramed(parse);
    NoTraffic();
    ghost var all := ServeBytes(pipe.data, parse);
    assert all == Serve(ReadAll(pipe.data, parse).frames, ReadAll(pipe.data, parse).last);
    hide ServeBytes;
    ghost var front: seq<Byte>, frames: seq<ClientFrame> := [], [];
    assert pipe.data == front + pipe.data;
    emitted, received, invalid := [], 0, 0;
    while true
      invariant Later(old(pipe.script), pipe.script) && Fail !in Spent(old(pipe.script), pipe.script)
      invariant old(pipe.data) == front + pipe.data && Framed(front, parse, frames) && IsTraffic(frames)
      invariant emitted == Records(manifest, identity, sessionId, EventsOf(frames))
      invariant invalid == 0 && received == |emitted|
      invariant var now := ServeBytes(pipe.data, parse); all == Service(EventsOf(frames) + now.events, now.invalid)
      decreases |pipe.data|
    {
      ghost var script, data := pipe.script, pipe.data;
      ServeNext(data, parse);
      var next := ReadFrame(pipe, parse);
      SpentInTwo(old(pipe.script), script, pipe.script);
      match next
      case Frame(Event(event)) =>
        received := received + 1;
        emitted := emitted + [Attributed(manifest, identity, sessionId, event)];
        front, frames := OneMoreFrame(front, frames, data, parse);
      case Frame(Heartbeat(_)) =>
        front, frames := OneMoreFrame(front, frames, data, parse);
      case Frame(Hello(_, _, _)) =>
        invalid := invalid + 1;
        break;
      case Frame(Goodbye) =>
        break;
      case End =>
        break;
      case Io =>
        ServedUntilBroken(front, frames, data, pipe.data, parse);
        invalid := invalid + 1;
        break;
      case _ =>
        invalid := invalid + 1;
        break;
    }
    assert EventsOf(frames) + [] == EventsOf(frames);
  }

  lemma NoTraffic()
    ensures IsTraffic([]) && EventsOf([]) == []
  {
  }

  lemma OneMoreFrame(front: seq<Byte>, frames: seq<ClientFrame>, data: seq<Byte>, parse: Parser)
    returns (front': seq<Byte>, frames': seq<ClientFrame>)
    requires Framed(front, parse, frames) && IsTraffic(frames)
    requires var r := ParseOne(data, parse).reading; r.Frame? && (r.frame.Event? || r.frame.Heartbeat?)
    ensures var p := ParseOne(data, parse);
      && front + data == front' + p.rest && Framed(front', parse, frames') && IsTraffic(frames')
      && EventsOf(frames') == EventsOf(frames) + if p.reading.frame.Event? then [p.reading.frame.event] else []
  {
    hide ParseOne, Framed;
    var p := ParseOne(data, parse);
    FrameReadToo(front, frames, data, parse);
    front', frames' := front + Taken(data, p.rest), frames + [p.reading.frame];
    EventsOfMore(frames, p.reading.frame);
  }

  lemma EventsOfFirst(frames: seq<ClientFrame>)
    requires frames != []
    ensures EventsOf(frames) == (if frames[0].Event? then [frames[0].event] else []) + EventsOf(frames[1..])
  {
  }

  lemma {:induction false} EventsOfMore(frames: seq<ClientFrame>, f: ClientFrame)
    ensures EventsOf(frames + [f]) == EventsOf(frames) + if f.Event? then [f.event] else []
  {
    if frames == [] {
      assert [f][1..] == [];
    } else {
      EventsOfMore(frames[1..], f);
      EventsOfFirst(frames + [f]);
      EventsOfFirst(frames);
      assert (frames + [f])[1..] == frames[1..] + [f] && (frames + [f])[0] == frames[0];
      hide EventsOf;
      if f.Event? {
        assert (EventsOf(frames[1..]) + [f.event]) == EventsOf((frames + [f])[1..]);
      }
    }
  }

  /** The client is identified, says hello first and passes every check. */
  predicate Admits(frames: seq<ClientFrame>, identity: Option<Identity>, store: Store, host: Host) {
    identity.Some? && frames != [] && frames[0].Hello? && ValidateHandshake(frames[0], identity.value, store, host).Bound?
  }

  method HandleSession(pipe: ReadStream, back: WriteStream, identity: Option<Identity>, store: Store, host: Host,
                       sessionId: string, parse: Parser, encode: ServerFrame -> Option<seq<Byte>>, flushOk: bool)
    returns (outcome: Outcome, acked: bool)
    modifies pipe, back
    ensures Later(old(pipe.script), pipe.script)
    ensures var broken := Fail in Spent(old(pipe.script), pipe.script);
      var c := Delivered(old(pipe.data), pipe.data, broken, parse);
      && (broken ==> TakenFrom(old(pipe.data), pipe.data))
      && outcome == Whole(c.frames, c.last, identity, store, host, sessionId, acked)
      && (acked <==> Admits(c.frames, identity, store, host)
                     && GoesOut(HelloAck(sessionId, MAX_FRAME_BYTES), encode, old(back.faults), flushOk))
    ensures identity.None? ==> pipe.data == old(pipe.data) && back.sent == old(back.sent)
    ensures acked ==> back.sent == old(back.sent) + Encode(encode(HelloAck(sessionId, MAX_FRAME_BYTES)).value)
    ensures outcome.ending.Rejected? && GoesOut(Reject(outcome.ending.reason), encode, old(back.faults), flushOk) ==>
      back.sent == old(back.sent) + Encode(encode(Reject(outcome.ending.reason)).value)
  {
    hide ParseOne, ReadAll, Later, Spent, ValidateHandshake, ServeBytes, Serve, Taken, TakenFrom, Incomplete, Delivered, GoesOut;
    NothingSpent(pipe.script);
    if identity.None? {
      return Outcome(NotIdentified, [], 0, 0, 0), false;
    }
    ghost var sent := pipe.data;
    var first := ReadFrame(pipe, parse);
    FirstDelivered(sent, pipe.data, first, parse);
    if !first.Frame? || !first.frame.Hello? {
      var _ := WriteFrame(back, Reject(BadHandshake), encode, flushOk);
      return Outcome(Rejected(BadHandshake), [], 0, 0, 1), false;
    }
    var verdict := ValidateHandshake(first.frame, identity.value, store, host);
    if verdict.Refused? {
      var _ := WriteFrame(back, Reject(verdict.reason), encode, flushOk);
      return Outcome(Rejected(verdict.reason), [], 0, 0, 1), false;
    }
    var ack := WriteFrame(back, HelloAck(sessionId, MAX_FRAME_BYTES), encode, flushOk);
    if !ack.Written? {
      return Outcome(AckNotSent, [], 0, 0, 0), false;
    }
    ghost var script, rest := pipe.script, pipe.data;
    var emitted, received, invalid := ServeFrames(pipe, verdict.manifest, identity.value, sessionId, parse);
    SpentInTwo(old(pipe.script), script, pipe.script);
    RestDelivered(sent, pipe.data, Fail in Spent(script, pipe.script), parse);
    return Outcome(Served, emitted, received, invalid, 0), true;
  }

  /** The first frame, and all there is to hear if it is none. */
  lemma FirstDelivered(sent: seq<Byte>, rest: seq<Byte>, first: Reading<ClientFrame>, parse: Parser)
    requires if first.Io? then TakenFrom(sent, rest) && Incomplete(Taken(sent, rest), parse)
             else Parsed(first, rest) == ParseOne(sent, parse)
    ensures var c := Delivered(sent, rest, first.Io?, parse);
      if first.Frame? then c.frames != [] && c.frames[0] == first.frame else c.frames == []
  {
    hide ParseOne;
    ReadAllFrames(sent, parse);
    ReadAllFrames(Taken(sent, rest), parse);
  }

  /** What follows the first frame. */
  lemma RestDelivered(sent: seq<Byte>, after: seq<Byte>, broken: bool, parse: Parser)
    requires ParseOne(sent, parse).reading.Frame?
    requires broken ==> TakenFrom(ParseOne(sent, parse).rest, after)
    ensures var (p, c) := (ParseOne(sent, parse), Delivered(sent, after, broken, parse));
      var d := Delivered(p.rest, after, broken, parse);
      && (broken ==> TakenFrom(sent, after))
      && c.frames == [p.reading.frame] + d.frames && c.last == d.last && c.frames[1..] == d.frames
  {
    var p := ParseOne(sent, parse);
    ReadAllFrames(sent, parse);
    if broken {
      var body := FrameInFront(sent, parse);
      var behind := Taken(p.rest, after);
      assert sent == (Encode(body) + behind) + after;
      TakenIs(Encode(body) + behind, after);
      OneFrame(body, behind, parse);
      ReadAllFrames(Encode(body) + behind, parse);
    }
    hide ParseOne, ReadAll, Encode;
  }

  /** How the counters of a session go with its ending. */
  lemma CountersOfSession(frames: seq<ClientFrame>, last: Reading<ClientFrame>, identity: Option<Identity>, store: Store,
                          host: Host, sessionId: string, acked: bool)
    ensures var o := Whole(frames, last, identity, store, host, sessionId, acked);
      && o.received == |o.emitted|
      && o.rejected == (if o.ending.Rejected? then 1 else 0)
      && o.invalid <= 1 && (!o.ending.Served? ==> o.received == 0 && o.invalid == 0)
      && (o.ending.NotIdentified? <==> identity.None?)
      && (o.ending.Rejected? <==> identity.Some? && !Admits(frames, identity, store, host))
      && (o.ending.Served? <==> Admits(frames, identity, store, host) && acked)
  {
    hide ValidateHandshake;
    if frames != [] {
      OneInvalidFrame(frames[1..], last);
    }
  }

  lemma {:induction false} OneInvalidFrame(frames: seq<ClientFrame>, last: Reading<ClientFrame>)
    ensures Serve(frames, last).invalid <= 1
  {
    if frames != [] {
      OneInvalidFrame(frames[1..], last);
    }
  }

  // What a session lets through.

  /**
   Nothing goes out before a handshake that succeeds against the store the session was given, and everything
   that goes out is an event the plugin sent after it, under the id and name of the manifest it is bound to, with
   the process and the session it came from.
   */
  lemma OnlyTheAdmittedAreHeard(frames: seq<ClientFrame>, last: Reading<ClientFrame>, identity: Option<Identity>,
                                store: Store, host: Host, sessionId: string, acked: bool, i: nat)
    requires i < |Whole(frames, last, identity, store, host, sessionId, acked).emitted|
    ensures identity.Some? && acked && frames != [] && frames[0].Hello?
    ensures ValidateHandshake(frames[0], identity.value, store, host).Bound?
    ensures var r := Whole(frames, last, identity, store, host, sessionId, acked).emitted[i];
      && Event(r.event) in frames[1..]
      && r.pluginId == store[frames[0].pluginId].pluginId && r.pluginName == store[frames[0].pluginId].name
      && r.pid == identity.value.pid && r.sessionId == sessionId
      && (KeyedById(store) ==> r.pluginId == frames[0].pluginId)
  {
    hide ValidateHandshake;
    ServedWereSent(frames[1..], last, i);
  }

  lemma {:induction false} ServedWereSent(frames: seq<ClientFrame>, last: Reading<ClientFrame>, i: nat)
    requires i < |Serve(frames, last).events|
    ensures Event(Serve(frames, last).events[i]) in frames
  {
    match frames[0]
    case Event(event) =>
      if i > 0 {
        ServedWereSent(frames[1..], last, i - 1);
      }
    case Heartbeat(_) =>
      ServedWereSent(frames[1..], last, i);
  }

  predicate IsTraffic(frames: seq<ClientFrame>) {
    forall i | 0 <= i < |frames| :: frames[i].Event? || frames[i].Heartbeat?
  }

  function EventsOf(frames: seq<ClientFrame>): seq<PluginEvent> {
    if frames == [] then []
    else (if frames[0].Event? then [frames[0].event] else []) + EventsOf(frames[1..])
  }

  lemma {:induction false} TrafficIsServed(traffic: seq<ClientFrame>, more: seq<ClientFrame>, last: Reading<ClientFrame>)
    requires IsTraffic(traffic)
    ensures Serve(traffic + more, last)
         == Service(EventsOf(traffic) + Serve(more, last).events, Serve(more, last).invalid)
  {
    if traffic == [] {
      assert traffic + more == more;
    } else {
      TrafficIsServed(traffic[1..], more, last);
      var all := traffic + more;
      assert all[1..] == traffic[1..] + more && all[0] == traffic[0];
      var served := Serve(more, last);
      assert Serve(all, last).invalid == served.invalid;
      assert EventsOf(traffic) + served.events
          == (if traffic[0].Event? then [traffic[0].event] else []) + (EventsOf(traffic[1..]) + served.events);
    }
  }

  /** A plugin writes each frame in a way the agent reads back, within the limit. */
  ghost predicate Readable(frames: seq<ClientFrame>, write: ClientFrame -> seq<Byte>, parse: Parser) {
    forall i | 0 <= i < |frames| :: parse(write(frames[i])) == Some(frames[i]) && |write(frames[i])| <= MAX_FRAME_BYTES
  }

  function Bodies(frames: seq<ClientFrame>, write: ClientFrame -> seq<Byte>): (r: seq<seq<Byte>>)
    ensures |r| == |frames| && forall i | 0 <= i < |r| :: r[i] == write(frames[i])
  {
    seq(|frames|, i requires 0 <= i < |frames| => write(frames[i]))
  }

  /** What a plugin that sends these frames puts on the pipe. */
  ghost function Sent(frames: seq<ClientFrame>, write: ClientFrame -> seq<Byte>, parse: Parser): seq<Byte>
    requires Readable(frames, write, parse)
  {
    Stream(Bodies(frames, write))
  }

  lemma BodiesReadBack(frames: seq<ClientFrame>, write: ClientFrame -> seq<Byte>, parse: Parser, k: nat)
    requires Readable(frames, write, parse) && k <= |frames|
    ensures Sendable(Bodies(frames, write), parse) && Sendable(Bodies(frames, write)[..k], parse)
    ensures Frames(Bodies(frames, write)[..k], parse) == frames[..k]
  {
  }

  lemma ServeNothing(last: Reading<ClientFrame>)
    ensures Serve([], last) == Service([], if last.End? then 0 else 1)
  {
  }

  /** A session that is let in: the events of the traffic, and then whatever the rest amounts to. */
  lemma AdmittedSession(hello: ClientFrame, traffic: seq<ClientFrame>, more: seq<ClientFrame>,
                        last: Reading<ClientFrame>, identity: Identity, store: Store, host: Host, sessionId: string)
    requires hello.Hello? && ValidateHandshake(hello, identity, store, host).Bound? && IsTraffic(traffic)
    ensures var events := EventsOf(traffic) + Serve(more, last).events;
      Whole([hello] + traffic + more, last, Some(identity), store, host, sessionId, true)
      == Outcome(Served, Records(store[hello.pluginId], identity, sessionId, events), |events|,
                 Serve(more, last).invalid, 0)
  {
    hide ValidateHandshake, EventsOf, Serve;
    assert ([hello] + traffic + more)[1..] == traffic + more;
    TrafficIsServed(traffic, more, last);
  }

  /**
   A plugin that is let in and then sends events and heartbeats, until the pipe closes somewhere at or after the
   end of its hello: exactly the events that arrived whole go out, once each and in order, and the session
   counts as clean exactly if the pipe closed between two frames.
   */
  lemma EventsGoThrough(hello: ClientFrame, traffic: seq<ClientFrame>, cut: nat, write: ClientFrame -> seq<Byte>,
                        parse: Parser, identity: Identity, store: Store, host: Host, sessionId: string)
    requires hello.Hello? && ValidateHandshake(hello, identity, store, host).Bound? && IsTraffic(traffic)
    requires Readable([hello] + traffic, write, parse)
    requires 4 + |write(hello)| <= cut <= |Sent([hello] + traffic, write, parse)|
    ensures var bodies := Bodies([hello] + traffic, write);
      var c := ReadAll(Sent([hello] + traffic, write, parse)[..cut], parse);
      var k := WholeFrames(bodies, cut);
      k >= 1
      && var events := EventsOf(traffic[..k - 1]);
         Whole(c.frames, c.last, Some(identity), store, host, sessionId, true)
         == Outcome(Served, Records(store[hello.pluginId], identity, sessionId, events), |events|,
                    if cut == |Stream(bodies[..k])| then 0 else 1, 0)
  {
    hide ReadAll, WholeFrames, Stream, ValidateHandshake, Serve, EventsOf, Whole, Records, IsTraffic;
    var frames := [hello] + traffic;
    var bodies := Bodies(frames, write);
    var k := WholeFrames(bodies, cut);
    BodiesReadBack(frames, write, parse, k);
    CutAnywhere(bodies, cut, parse);
    HelloIsWhole(bodies, cut);
    var whole := traffic[..k - 1];
    var last: Reading<ClientFrame> := if cut == |Stream(bodies[..k])| then End else Truncated;
    assert IsTraffic(whole) by {
      FirstTraffic(traffic, k - 1);
    }
    AdmittedSession(hello, whole, [], last, identity, store, host, sessionId);
    ServeNothing(last);
    assert frames[..k] == [hello] + whole + [];
    assert EventsOf(whole) + [] == EventsOf(whole);
  }

  lemma FirstTraffic(traffic: seq<ClientFrame>, k: nat)
    requires IsTraffic(traffic) && k <= |traffic|
    ensures IsTraffic(traffic[..k])
  {
  }

  lemma HelloIsWhole(bodies: seq<seq<Byte>>, cut: nat)
    requires bodies != [] && forall b | b in bodies :: |b| <= MAX_FRAME_BYTES
    requires 4 + |bodies[0]| <= cut
    ensures WholeFrames(bodies, cut) >= 1
  {
  }

  /** A goodbye ends the session, and so does a second hello, as an invalid frame: what comes after is not read as anything. */
  lemma EndsTheSession(hello: ClientFrame, traffic: seq<ClientFrame>, over: ClientFrame, more: seq<Byte>,
                       write: ClientFrame -> seq<Byte>, parse: Parser, identity: Identity, store: Store, host: Host,
                       sessionId: string)
    requires hello.Hello? && ValidateHandshake(hello, identity, store, host).Bound? && IsTraffic(traffic)
    requires over.Goodbye? || over.Hello?
    requires Readable([hello] + traffic + [over], write, parse)
    ensures var c := ReadAll(Sent([hello] + traffic + [over], write, parse) + more, parse);
      var events := EventsOf(traffic);
      Whole(c.frames, c.last, Some(identity), store, host, sessionId, true)
      == Outcome(Served, Records(store[hello.pluginId], identity, sessionId, events), |events|, if over.Hello? then 1 else 0, 0)
  {
    hide ReadAll, Stream, ValidateHandshake, EventsOf, Serve, Whole, Records, IsTraffic;
    var frames := [hello] + traffic + [over];
    var bodies := Bodies(frames, write);
    var rest := ReadAll(more, parse);
    BodiesReadBack(frames, write, parse, |frames|);
    assert bodies[..|frames|] == bodies && frames[..|frames|] == frames;
    FramesThenMore(bodies, more, parse);
    AdmittedSession(hello, traffic, [over] + rest.frames, rest.last, identity, store, host, sessionId);
    assert frames + rest.frames == [hello] + traffic + ([over] + rest.frames);
    ServeOver(over, rest.frames, rest.last);
    assert EventsOf(traffic) + [] == EventsOf(traffic);
  }

  lemma ServeOver(over: ClientFrame, more: seq<ClientFrame>, last: Reading<ClientFrame>)
    requires over.Goodbye? || over.Hello?
    ensures Serve([over] + more, last) == Service([], if over.Hello? then 1 else 0)
  {
  }

  /**
   On a pipe that does not fail, with an acknowledgement that can be encoded: whoever is let in is heard, however
   short and interrupted the reads are.
   */
  method HearAdmitted(bytes: seq<Byte>, script: seq<Framing.Turn>, ghost hello: ClientFrame, ghost traffic: seq<ClientFrame>,
                      ghost write: ClientFrame -> seq<Byte>, identity: Identity, store: Store, host: Host,
                      sessionId: string, parse: Parser, encode: ServerFrame -> Option<seq<Byte>>)
    returns (outcome: Outcome)
    requires hello.Hello? && ValidateHandshake(hello, identity, store, host).Bound? && IsTraffic(traffic)
    requires Readable([hello] + traffic, write, parse)
    requires 4 + |write(hello)| <= |bytes| && bytes <= Sent([hello] + traffic, write, parse)
    requires Fail !in script && GoesOut(HelloAck(sessionId, MAX_FRAME_BYTES), encode, [], true)
    ensures var bodies := Bodies([hello] + traffic, write);
      var k := WholeFrames(bodies, |bytes|);
      k >= 1
      && var events := EventsOf(traffic[..k - 1]);
         outcome == Outcome(Served, Records(store[hello.pluginId], identity, sessionId, events), |events|,
                            if |bytes| == |Stream(bodies[..k])| then 0 else 1, 0)
  {
    hide ReadAll, WholeFrames, Stream, ValidateHandshake, Serve, EventsOf, Records, IsTraffic, GoesOut;
    var pipe := new ReadStream(bytes, script);
    var back := new WriteStream([]);
    var acked;
    outcome, acked := HandleSession(pipe, back, Some(identity), store, host, sessionId, parse, encode, true);
    ghost var sent := Sent([hello] + traffic, write, parse);
    assert sent[..|bytes|] == bytes;
    EventsGoThrough(hello, traffic, |bytes|, write, parse, identity, store, host, sessionId);
    ghost var c := ReadAll(bytes, parse);
    AdmittedIfServed(c.frames, c.last, Some(identity), store, host, sessionId);
  }

  lemma AdmittedIfServed(frames: seq<ClientFrame>, last: Reading<ClientFrame>, identity: Option<Identity>, store: Store,
                         host: Host, sessionId: string)
    requires Whole(frames, last, identity, store, host, sessionId, true).ending.Served?
    ensures Admits(frames, identity, store, host)
  {
    hide ValidateHandshake, Serve, Records;
  }
}
