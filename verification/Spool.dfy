/**
 The spool as a step function: producers, the bounded channel, the active file, rotation, sealing and
 eviction (src/spool/writer.rs and src/spool/file.rs). Every choice the environment makes (arrival order,
 time-outs, clock readings, I/O failures) is part of the event, so a statement about all event sequences
 is a statement about all runs.
 */
module Spool {
  import opened Options
  import opened Text
  import opened Sorting
  import opened BatchNames
  import opened Eviction

  datatype Config = Config(maxBytesPerFile: nat, maxTotalBytes: nat, channelCapacity: nat)

  /** How an attempt to seal the active file goes, after the clock reading that goes into the name. */
  datatype Sealing =
    | FlushFailed
    | RenameFailed
    | CompressFailed(partial: Option<File>)  // perhaps an unfinished file under the final name
    | Done(size: nat, removable: set<string>)

  datatype Event =
    | Submit(line: Line)
    | CloseSenders
    | Start(ok: bool)
    | Receive(writeOk: bool, ts: nat, sealing: Sealing, reopenOk: bool)
    | Timeout(ts: nat, sealing: Sealing, reopenOk: bool)
    | Disconnected(ts: nat, sealing: Sealing)

  datatype Phase = Starting | Running | Exited

  datatype State = State(
    // The channel and the threads at its ends.
    queue: seq<Line>,
    sendersOpen: bool,
    phase: Phase,
    // The writer's active file, and the directory in name order.
    active: Option<seq<Line>>,
    disk: Directory,
    // SpoolStats.
    eventsWritten: nat,
    eventsDropped: nat,
    batchesSealed: nat,
    batchesEvicted: nat,
    // History, for stating properties.
    submissions: nat,
    accepted: seq<Line>,
    stranded: nat,
    unwritten: nat,               // lines taken from the channel and not written
    unsealed: nat,                // lines written and lost with their file when sealing it failed
    sealed: seq<Named<File>>,
    evicted: seq<Named<File>>,
    faults: nat
  )

  function Initial(leftover: Directory): State {
    State([], true, Starting, None, leftover, 0, 0, 0, 0, 0, [], 0, 0, 0, [], [], 0)
  }

  function Bytes(lines: seq<Line>): nat {
    if lines == [] then 0 else Bytes(lines[..|lines| - 1]) + |lines[|lines| - 1]|
  }

  /**
   What can happen next. A submitted line ends with its newline, so it is not empty. The receiver reports a
   time-out or a closed channel only when nothing is queued.
   */
  predicate Enabled(s: State, e: Event) {
    match e
    case Submit(line) => s.sendersOpen && line != []
    case CloseSenders => s.sendersOpen
    case Start(_) => s.phase == Starting
    case Receive(_, _, _, _) => s.phase == Running && s.queue != []
    case Timeout(_, _, _) => s.phase == Running && s.queue == []
    case Disconnected(_, _) => s.phase == Running && s.queue == [] && !s.sendersOpen
  }

  function Step(cfg: Config, s: State, e: Event): State
    requires Enabled(s, e)
  {
    match e
    case Submit(line) => TrySubmit(cfg, s, line)
    case CloseSenders => s.(sendersOpen := false)
    case Start(ok) =>
      if ok then s.(phase := Running, active := Some([]))
      else s.(phase := Exited, queue := [], stranded := s.stranded + |s.queue|, faults := s.faults + 1)
    case Receive(writeOk, ts, sealing, reopenOk) => Received(cfg, s, writeOk, ts, sealing, reopenOk)
    case Timeout(ts, sealing, reopenOk) =>
      if s.active.Some? && Bytes(s.active.value) > 0 then Rotate(cfg, s, ts, sealing, reopenOk) else s
    case Disconnected(ts, sealing) =>
      if s.active.Some? && Bytes(s.active.value) > 0 then
        SealActive(cfg, s, ts, sealing).(phase := Exited)
      else
        s.(active := None, phase := Exited)
  }

  function TrySubmit(cfg: Config, s: State, line: Line): State {
    var s' := s.(submissions := s.submissions + 1);
    if s.phase != Exited && |s.queue| < cfg.channelCapacity then
      s'.(queue := s.queue + [line], accepted := s.accepted + [line])
    else
      s'.(eventsDropped := s.eventsDropped + 1)
  }

  function Received(cfg: Config, s: State, writeOk: bool, ts: nat, sealing: Sealing, reopenOk: bool): State
    requires s.queue != []
  {
    if s.active.None? || !writeOk then
      Lost(s)
    else
      var s' := Written(s);
      if Bytes(s'.active.value) >= cfg.maxBytesPerFile then Rotate(cfg, s', ts, sealing, reopenOk) else s'
  }

  /** The received line could not be written. */
  function Lost(s: State): State
    requires s.queue != []
  {
    s.(queue := s.queue[1..], eventsDropped := s.eventsDropped + 1, unwritten := s.unwritten + 1, faults := s.faults + 1)
  }

  /** The received line is in the active file. */
  function Written(s: State): State
    requires s.queue != [] && s.active.Some?
  {
    s.(queue := s.queue[1..], active := Some(s.active.value + [s.queue[0]]), eventsWritten := s.eventsWritten + 1)
  }

  /** Seals the active file and opens a new one. */
  function Rotate(cfg: Config, s: State, ts: nat, sealing: Sealing, reopenOk: bool): State
    requires s.active.Some?
  {
    var s' := SealActive(cfg, s, ts, sealing);
    if reopenOk then s'.(active := Some([])) else s'.(faults := s'.faults + 1)
  }

  /** Consumes the active file. The sequence number is used up as soon as the flush succeeds. */
  function SealActive(cfg: Config, s: State, ts: nat, sealing: Sealing): State
    requires s.active.Some?
  {
    var name := BatchName(ts, s.batchesSealed);
    var s' := s.(active := None);
    var lost := s'.(faults := s.faults + 1, unsealed := s.unsealed + |s.active.value|);
    match sealing
    case FlushFailed => lost
    case RenameFailed => lost.(batchesSealed := s.batchesSealed + 1)
    case CompressFailed(partial) =>
      lost.(batchesSealed := s.batchesSealed + 1,
          disk := if partial.None? then s.disk else Put(name, partial.value, s.disk))
    case Done(size, removable) =>
      var file := File(s.active.value, size);
      var full := Put(name, file, s.disk);
      var kept := AfterCap(full, cfg.maxTotalBytes, removable);
      s'.(batchesSealed := s.batchesSealed + 1,
          disk := kept,
          batchesEvicted := s.batchesEvicted + (if |kept| <= |full| then |full| - |kept| else 0),
          sealed := s.sealed + [Named(name, file)],
          evicted := s.evicted + Gone(full, kept))
  }

  /** Creating a file: a file of that name is replaced. */
  function Put(name: string, file: File, disk: Directory): Directory {
    Insert(Named(name, file), Remove(name, disk))
  }

  function Remove(name: string, disk: Directory): (r: Directory)
    ensures forall e :: e in r <==> e in disk && e.name != name
  {
    if disk == [] then []
    else if disk[0].name == name then Remove(name, disk[1..])
    else [disk[0]] + Remove(name, disk[1..])
  }

  function Gone(full: Directory, kept: Directory): (r: Directory)
    ensures forall e :: e in r <==> e in full && e !in kept
  {
    if full == [] then []
    else if full[0] in kept then Gone(full[1..], kept)
    else [full[0]] + Gone(full[1..], kept)
  }

  ghost predicate ValidRun(cfg: Config, s: State, events: seq<Event>)
    decreases |events|
  {
    events == [] || (Enabled(s, events[0]) && ValidRun(cfg, Step(cfg, s, events[0]), events[1..]))
  }

  ghost function Run(cfg: Config, s: State, events: seq<Event>): State
    requires ValidRun(cfg, s, events)
    decreases |events|
  {
    if events == [] then s else Run(cfg, Step(cfg, s, events[0]), events[1..])
  }

  // What every run keeps.

  function AllLines(batches: seq<Named<File>>): seq<Line> {
    if batches == [] then [] else AllLines(batches[..|batches| - 1]) + batches[|batches| - 1].value.lines
  }

  function ActiveLines(s: State): seq<Line> {
    if s.active.Some? then s.active.value else []
  }

  /** The lines the writer still answers for: sealed, in the active file, in the channel, in that order. */
  function Held(s: State): seq<Line> {
    AllLines(s.sealed) + ActiveLines(s) + s.queue
  }

  predicate Subsequence<T(==)>(x: seq<T>, y: seq<T>)
    decreases |y|
  {
    x == [] ||
    (y != [] && (Subsequence(x, y[..|y| - 1]) ||
                 (x[|x| - 1] == y[|y| - 1] && Subsequence(x[..|x| - 1], y[..|y| - 1]))))
  }

  /** A batch that has lines, and without its last line had not reached the limit. */
  predicate WellCut(cfg: Config, lines: seq<Line>) {
    lines != [] && (Bytes(lines[..|lines| - 1]) < cfg.maxBytesPerFile || Bytes(lines[..|lines| - 1]) == 0)
  }

  ghost predicate Inv(cfg: Config, s: State) {
    && Kept(cfg, s)
    && (s.active.Some? ==> Bytes(s.active.value) < cfg.maxBytesPerFile || Bytes(s.active.value) == 0)
    && (s.phase != Running ==> s.active == None)
    && (s.phase == Exited ==> s.queue == [])
  }

  /** The part of the invariant that also holds in the middle of a rotation. */
  ghost predicate Kept(cfg: Config, s: State) {
    && s.submissions == s.eventsWritten + s.eventsDropped + |s.queue| + s.stranded
    && |s.queue| <= cfg.channelCapacity
    && InOrder(Held(s), s.accepted, s.faults)
    && (s.faults == 0 ==> s.stranded == 0)
    && Proper(s.queue) && Proper(ActiveLines(s))
    && AllWellCut(cfg, s.sealed)
  }

  predicate InOrder(held: seq<Line>, accepted: seq<Line>, faults: nat) {
    Subsequence(held, accepted) && (faults == 0 ==> held == accepted)
  }

  predicate Proper(lines: seq<Line>) {
    forall l | l in lines :: l != []
  }

  predicate AllWellCut(cfg: Config, batches: seq<Named<File>>) {
    forall b | b in batches :: WellCut(cfg, b.value.lines)
  }

  lemma {:induction false} SubsequenceOfLonger<T>(x: seq<T>, y: seq<T>)
    ensures Subsequence(x, x + y)
    decreases |x| + |y|
  {
    if y != [] {
      SubsequenceOfLonger(x, y[..|y| - 1]);
      assert (x + y)[..|x + y| - 1] == x + y[..|y| - 1];
    } else {
      assert x + y == x;
      if x != [] {
        SubsequenceOfLonger(x[..|x| - 1], []);
        assert x[..|x| - 1] + [] == x[..|x| - 1];
      }
    }
  }

  lemma {:induction false} SubsequenceTransitive<T>(x: seq<T>, y: seq<T>, z: seq<T>)
    requires Subsequence(x, y) && Subsequence(y, z)
    ensures Subsequence(x, z)
    decreases |z|, |y|
  {
    if x != [] && y != [] {
      var (y', z') := (y[..|y| - 1], z[..|z| - 1]);
      if Subsequence(y, z') {
        SubsequenceTransitive(x, y, z');
      } else if Subsequence(x, y') {
        SubsequenceTransitive(x, y', z');
      } else {
        SubsequenceTransitive(x[..|x| - 1], y', z');
      }
    }
  }

  /** Leaving a stretch out keeps a subsequence. */
  lemma {:induction false} LeaveOut<T>(a: seq<T>, b: seq<T>, c: seq<T>)
    ensures Subsequence(a + c, a + b + c)
    decreases |c|
  {
    if c == [] {
      SubsequenceOfLonger(a, b);
      assert a + c == a && a + b + c == a + b;
    } else {
      LeaveOut(a, b, c[..|c| - 1]);
      assert (a + c)[..|a + c| - 1] == a + c[..|c| - 1];
      assert (a + b + c)[..|a + b + c| - 1] == a + b + c[..|c| - 1];
    }
  }

  lemma SubsequenceAppend<T>(x: seq<T>, y: seq<T>, e: T)
    requires Subsequence(x, y)
    ensures Subsequence(x + [e], y + [e])
  {
    assert (x + [e])[..|x|] == x && (y + [e])[..|y|] == y;
  }

  /** Losing a stretch of the lines that are held. */
  lemma LoseLines(s: State, a: seq<Line>, b: seq<Line>, c: seq<Line>)
    requires InOrder(Held(s), s.accepted, s.faults) && Held(s) == a + b + c
    ensures InOrder(a + c, s.accepted, s.faults + 1)
  {
    LeaveOut(a, b, c);
    SubsequenceTransitive(a + c, a + b + c, s.accepted);
  }

  lemma SealKeeps(cfg: Config, s: State, ts: nat, sealing: Sealing)
    requires Kept(cfg, s) && s.active.Some? && WellCut(cfg, s.active.value)
    ensures Kept(cfg, SealActive(cfg, s, ts, sealing))
  {
    hide AfterCap, Put, Gone, BatchName, InOrder, WellCut, Held;
    var s' := SealActive(cfg, s, ts, sealing);
    if sealing.Done? {
      HeldAfterSeal(s, s');
    } else {
      LoseActive(s, s');
    }
  }

  lemma HeldAfterSeal(s: State, s': State)
    requires s.active.Some? && s'.active.None? && s'.queue == s.queue
    requires s'.sealed != [] && s'.sealed[..|s'.sealed| - 1] == s.sealed
    requires s'.sealed[|s'.sealed| - 1].value.lines == s.active.value
    ensures Held(s') == Held(s)
  {
  }

  lemma LoseActive(s: State, s': State)
    requires s.active.Some? && s'.active.None? && s'.queue == s.queue && s'.sealed == s.sealed
    requires s'.accepted == s.accepted && InOrder(Held(s), s.accepted, s.faults)
    ensures InOrder(Held(s'), s'.accepted, s.faults + 1)
  {
    hide InOrder;
    LoseLines(s, AllLines(s.sealed), s.active.value, s.queue);
    assert Held(s') == AllLines(s.sealed) + s.queue;
  }

  lemma RotateKeeps(cfg: Config, s: State, ts: nat, sealing: Sealing, reopenOk: bool)
    requires Kept(cfg, s) && s.phase == Running && s.active.Some? && WellCut(cfg, s.active.value)
    ensures Inv(cfg, Rotate(cfg, s, ts, sealing, reopenOk))
  {
    hide SealActive;
    SealKeeps(cfg, s, ts, sealing);
    var s' := SealActive(cfg, s, ts, sealing);
    SealEmptiesActive(cfg, s, ts, sealing);
    var s'' := Rotate(cfg, s, ts, sealing, reopenOk);
    assert Held(s'') == Held(s');
  }

  lemma SealEmptiesActive(cfg: Config, s: State, ts: nat, sealing: Sealing)
    requires s.active.Some?
    ensures var s' := SealActive(cfg, s, ts, sealing);
            s'.active == None && s'.phase == s.phase && s'.queue == s.queue
  {
  }

  lemma ProperParts(lines: seq<Line>)
    requires Proper(lines) && lines != []
    ensures lines[0] != [] && Proper(lines[1..])
  {
    assert lines[0] in lines;
    assert forall l | l in lines[1..] :: l in lines;
  }

  lemma ProperAppend(lines: seq<Line>, line: Line)
    requires Proper(lines) && line != []
    ensures Proper(lines + [line])
  {
  }

  lemma LostKeeps(cfg: Config, s: State)
    requires Inv(cfg, s) && s.phase == Running && s.queue != []
    ensures Inv(cfg, Lost(s))
  {
    hide InOrder, AllWellCut, Bytes, Proper;
    ProperParts(s.queue);
    var (line, rest) := (s.queue[0], s.queue[1..]);
    var front := AllLines(s.sealed) + ActiveLines(s);
    assert s.queue == [line] + rest;
    assert Held(s) == front + [line] + rest;
    LoseLines(s, front, [line], rest);
    assert Held(Lost(s)) == front + rest;
  }

  lemma WrittenKeeps(cfg: Config, s: State)
    requires Inv(cfg, s) && s.queue != [] && s.active.Some?
    ensures Kept(cfg, Written(s)) && WellCut(cfg, Written(s).active.value)
  {
    hide InOrder, AllWellCut, Proper;
    ProperParts(s.queue);
    ProperAppend(s.active.value, s.queue[0]);
    var (line, rest) := (s.queue[0], s.queue[1..]);
    var lines := s.active.value + [line];
    assert s.queue == [line] + rest;
    assert lines[..|lines| - 1] == s.active.value;
    assert Held(Written(s)) == Held(s);
  }

  lemma ReceivedKeeps(cfg: Config, s: State, writeOk: bool, ts: nat, sealing: Sealing, reopenOk: bool)
    requires Inv(cfg, s) && s.phase == Running && s.queue != []
    ensures Inv(cfg, Received(cfg, s, writeOk, ts, sealing, reopenOk))
  {
    hide Rotate, Kept;
    if s.active.None? || !writeOk {
      LostKeeps(cfg, s);
    } else {
      WrittenKeeps(cfg, s);
      if Bytes(Written(s).active.value) >= cfg.maxBytesPerFile {
        RotateKeeps(cfg, Written(s), ts, sealing, reopenOk);
      }
    }
  }

  /** One step keeps the invariant. */
  lemma StepKeeps(cfg: Config, s: State, e: Event)
    requires Inv(cfg, s) && Enabled(s, e)
    ensures Inv(cfg, Step(cfg, s, e))
  {
    hide Received, Rotate, SealActive, AllWellCut, InOrder, Proper;
    match e
    case Submit(line) =>
      SubmitKeeps(cfg, s, line);
    case CloseSenders =>
      assert Held(Step(cfg, s, e)) == Held(s);
    case Start(ok) =>
      StartKeeps(cfg, s, ok);
    case Receive(writeOk, ts, sealing, reopenOk) =>
      ReceivedKeeps(cfg, s, writeOk, ts, sealing, reopenOk);
    case Timeout(ts, sealing, reopenOk) =>
      if s.active.Some? && Bytes(s.active.value) > 0 {
        PrefixIsSmaller(cfg, s.active.value);
        RotateKeeps(cfg, s, ts, sealing, reopenOk);
      }
    case Disconnected(ts, sealing) =>
      DisconnectedKeeps(cfg, s, ts, sealing);
  }

  lemma SubmitKeeps(cfg: Config, s: State, line: Line)
    requires Inv(cfg, s) && line != []
    ensures Inv(cfg, TrySubmit(cfg, s, line))
  {
    hide Subsequence, AllWellCut, Proper;
    var s' := TrySubmit(cfg, s, line);
    if s.phase != Exited && |s.queue| < cfg.channelCapacity {
      SubsequenceAppend(Held(s), s.accepted, line);
      ProperAppend(s.queue, line);
      assert Held(s') == Held(s) + [line];
    } else {
      assert Held(s') == Held(s);
    }
  }

  lemma StartKeeps(cfg: Config, s: State, ok: bool)
    requires Inv(cfg, s) && s.phase == Starting
    ensures Inv(cfg, Step(cfg, s, Start(ok)))
  {
    hide InOrder, AllWellCut;
    var s' := Step(cfg, s, Start(ok));
    if ok {
      assert Held(s') == Held(s);
    } else {
      assert Held(s) == AllLines(s.sealed) + s.queue + [];
      LoseLines(s, AllLines(s.sealed), s.queue, []);
      assert Held(s') == AllLines(s.sealed) + [];
    }
  }

  lemma DisconnectedKeeps(cfg: Config, s: State, ts: nat, sealing: Sealing)
    requires Inv(cfg, s) && Enabled(s, Disconnected(ts, sealing))
    ensures Inv(cfg, Step(cfg, s, Disconnected(ts, sealing)))
  {
    hide SealActive, AllWellCut, InOrder;
    var s' := Step(cfg, s, Disconnected(ts, sealing));
    if s.active.Some? && Bytes(s.active.value) > 0 {
      PrefixIsSmaller(cfg, s.active.value);
      SealKeeps(cfg, s, ts, sealing);
      SealEmptiesActive(cfg, s, ts, sealing);
      assert Held(s') == Held(SealActive(cfg, s, ts, sealing));
    } else {
      if ActiveLines(s) != [] {
        LinesHaveBytes(ActiveLines(s));
      }
      assert Held(s') == Held(s);
    }
  }

  lemma PrefixIsSmaller(cfg: Config, lines: seq<Line>)
    requires 0 < Bytes(lines) < cfg.maxBytesPerFile
    ensures WellCut(cfg, lines)
  {
  }

  lemma LinesHaveBytes(lines: seq<Line>)
    requires lines != [] && Proper(lines)
    ensures Bytes(lines) > 0
  {
    assert lines[|lines| - 1] in lines;
  }

  /** Every run keeps the invariant. */
  lemma {:induction false} RunKeeps(cfg: Config, s: State, events: seq<Event>)
    requires Inv(cfg, s) && ValidRun(cfg, s, events)
    ensures Inv(cfg, Run(cfg, s, events))
    decreases |events|
  {
    hide Inv, Step, Enabled;
    if events != [] {
      StepKeeps(cfg, s, events[0]);
      RunKeeps(cfg, Step(cfg, s, events[0]), events[1..]);
    }
  }

  /**
   From a fresh start, after any events at all: every submission is written, dropped, queued or was
   stranded by a failed start; the lines still held keep the order in which they were accepted and none is
   duplicated; without failures they are exactly the accepted lines; and nothing is left behind on exit.
   */
  lemma Conservation(cfg: Config, leftover: Directory, events: seq<Event>)
    requires ValidRun(cfg, Initial(leftover), events)
    ensures var s := Run(cfg, Initial(leftover), events);
            && s.submissions == s.eventsWritten + s.eventsDropped + |s.queue| + s.stranded
            && Subsequence(Held(s), s.accepted)
            && (s.faults == 0 ==> Held(s) == s.accepted && s.stranded == 0)
            && (s.faults == 0 && s.phase == Exited ==> AllLines(s.sealed) == s.accepted)
            && (s.phase == Exited ==> s.queue == [] && s.active == None)
  {
    var s0 := Initial(leftover);
    assert Held(s0) == [];
    RunKeeps(cfg, s0, events);
    var s := Run(cfg, s0, events);
    if s.phase == Exited {
      assert Held(s) == AllLines(s.sealed);
    }
  }

  // Failures included: what the counters count.

  /**
   Every line counted as written is in a batch, in the active file or was lost with a failed seal; every one
   counted as dropped was refused on submission or was taken from the channel and not written.
   */
  predicate Counted(s: State) {
    && s.eventsWritten == |AllLines(s.sealed)| + |ActiveLines(s)| + s.unsealed
    && s.submissions + s.unwritten == |s.accepted| + s.eventsDropped
  }

  lemma AllLinesAppend(batches: seq<Named<File>>, b: Named<File>)
    ensures AllLines(batches + [b]) == AllLines(batches) + b.value.lines
  {
    assert (batches + [b])[..|batches|] == batches;
  }

  lemma SealCounts(cfg: Config, s: State, ts: nat, sealing: Sealing)
    requires Counted(s) && s.active.Some?
    ensures Counted(SealActive(cfg, s, ts, sealing))
  {
    hide AfterCap, Put, Gone, BatchName;
    if sealing.Done? {
      var b := Named(BatchName(ts, s.batchesSealed), File(s.active.value, sealing.size));
      AllLinesAppend(s.sealed, b);
      assert SealActive(cfg, s, ts, sealing).sealed == s.sealed + [b];
    }
  }

  lemma StepCounts(cfg: Config, s: State, e: Event)
    requires Counted(s) && Proper(ActiveLines(s)) && (s.phase == Starting ==> s.active.None?) && Enabled(s, e)
    ensures Counted(Step(cfg, s, e))
  {
    hide SealActive, AllLines, Bytes;
    match e
    case Receive(writeOk, ts, sealing, reopenOk) =>
      if s.active.Some? && writeOk {
        SealCounts(cfg, Written(s), ts, sealing);
        SealEmptiesActive(cfg, Written(s), ts, sealing);
      }
    case Timeout(ts, sealing, reopenOk) =>
      if s.active.Some? {
        SealCounts(cfg, s, ts, sealing);
        SealEmptiesActive(cfg, s, ts, sealing);
      }
    case Disconnected(ts, sealing) =>
      if s.active.Some? {
        SealCounts(cfg, s, ts, sealing);
        if s.active.value != [] {
          LinesHaveBytes(s.active.value);
        }
      }
    case _ =>
  }

  lemma {:induction false} RunCounts(cfg: Config, s: State, events: seq<Event>)
    requires Counted(s) && Inv(cfg, s) && ValidRun(cfg, s, events)
    ensures Counted(Run(cfg, s, events))
    decreases |events|
  {
    hide Step, Enabled, Counted, InOrder, AllWellCut, Proper;
    if events != [] {
      StepCounts(cfg, s, events[0]);
      StepKeeps(cfg, s, events[0]);
      RunCounts(cfg, Step(cfg, s, events[0]), events[1..]);
    }
  }

  /**
   In every run, with any failures: where the lines counted as written are, what the dropped ones are, and where
   every accepted line went.
   */
  lemma CountersAreExact(cfg: Config, leftover: Directory, events: seq<Event>)
    requires ValidRun(cfg, Initial(leftover), events)
    ensures var s := Run(cfg, Initial(leftover), events);
            && s.eventsWritten == |AllLines(s.sealed)| + |ActiveLines(s)| + s.unsealed
            && s.eventsDropped == (s.submissions - |s.accepted|) + s.unwritten
            && |s.accepted| == |Held(s)| + s.unsealed + s.unwritten + s.stranded
  {
    var s0 := Initial(leftover);
    assert Held(s0) == [];
    RunKeeps(cfg, s0, events);
    RunCounts(cfg, s0, events);
  }

  /** Rotation is on time: no batch, without its last line, had reached the limit, and no open file has. */
  lemma CutOnTime(cfg: Config, leftover: Directory, events: seq<Event>)
    requires ValidRun(cfg, Initial(leftover), events)
    ensures var s := Run(cfg, Initial(leftover), events);
            && (forall b | b in s.sealed :: WellCut(cfg, b.value.lines))
            && (s.active.Some? && cfg.maxBytesPerFile > 0 ==> Bytes(s.active.value) < cfg.maxBytesPerFile)
  {
    assert Held(Initial(leftover)) == [];
    RunKeeps(cfg, Initial(leftover), events);
  }

  // The directory stays a directory: batch names only, each once, in order.

  predicate DirectoryOk(disk: Directory) {
    Sorted(disk) && forall e | e in disk :: IsBatchName(e.name)
  }

  lemma BatchNamesAreBatchNames(ts: nat, seqNo: nat)
    ensures IsBatchName(BatchName(ts, seqNo))
  {
    var name := BatchName(ts, seqNo);
    var front := "batch-" + (Decimal(ts) + ("-" + Decimal(seqNo)));
    assert name == front + ".zst";
    assert name[..6] == "batch-";
  }

  lemma {:induction false} RemoveOk(name: string, disk: Directory)
    requires DirectoryOk(disk)
    ensures DirectoryOk(Remove(name, disk))
  {
    if disk != [] {
      var (e, rest) := (disk[0], disk[1..]);
      assert disk == [e] + rest;
      RemoveOk(name, rest);
      if e.name != name {
        FirstStaysFirst(e, rest, Remove(name, rest));
      }
    }
  }

  lemma PutOk(name: string, file: File, disk: Directory)
    requires DirectoryOk(disk) && IsBatchName(name)
    ensures DirectoryOk(Put(name, file, disk))
    ensures forall e :: e in Put(name, file, disk) <==> e == Named(name, file) || (e in disk && e.name != name)
  {
    RemoveOk(name, disk);
    InsertSorted(Named(name, file), Remove(name, disk));
  }

  /** The cap as the method computes it, from a listing, is the cap on the directory in name order. */
  lemma CapOfDirectory(disk: Directory, listing: Directory, maxTotal: nat, removable: set<string>)
    requires DirectoryOk(disk) && multiset(listing) == multiset(disk)
    ensures AfterCap(SortByName(Batches(listing)), maxTotal, removable) == AfterCap(disk, maxTotal, removable)
  {
    SameElements(listing, disk);
    AllAreBatches(listing);
    SortedIsDistinct(disk);
    ListingOrderIsIrrelevant(disk, listing);
    SortSorts(disk);
    SortedIsUnique(SortByName(disk), disk);
  }

  lemma AllAreBatches(listing: Directory)
    requires forall e | e in listing :: IsBatchName(e.name)
    ensures Batches(listing) == listing
  {
    if listing != [] {
      assert listing[0] in listing;
      assert forall e | e in listing[1..] :: e in listing;
      AllAreBatches(listing[1..]);
    }
  }

  lemma SortedIsDistinct(disk: Directory)
    requires Sorted(disk)
    ensures Distinct(disk)
  {
    forall i, j | 0 <= i < j < |disk|
      ensures disk[i].name != disk[j].name
    {
      LexTotal(disk[i].name, disk[j].name);
    }
  }

  lemma CapOk(disk: Directory, maxTotal: nat, removable: set<string>)
    requires DirectoryOk(disk)
    ensures DirectoryOk(AfterCap(disk, maxTotal, removable))
    ensures |AfterCap(disk, maxTotal, removable)| <= |disk|
  {
    SurvivorsKeepOrder(disk, TotalSize(disk), maxTotal, removable);
  }

  lemma SealDirectoryOk(cfg: Config, s: State, ts: nat, sealing: Sealing)
    requires DirectoryOk(s.disk) && s.active.Some?
    ensures DirectoryOk(SealActive(cfg, s, ts, sealing).disk)
  {
    var name := BatchName(ts, s.batchesSealed);
    BatchNamesAreBatchNames(ts, s.batchesSealed);
    match sealing
    case CompressFailed(Some(file)) =>
      PutOk(name, file, s.disk);
    case Done(size, removable) =>
      var full := Put(name, File(s.active.value, size), s.disk);
      PutOk(name, File(s.active.value, size), s.disk);
      CapOk(full, cfg.maxTotalBytes, removable);
    case _ =>
  }

  lemma StepDirectoryOk(cfg: Config, s: State, e: Event)
    requires DirectoryOk(s.disk) && Enabled(s, e)
    ensures DirectoryOk(Step(cfg, s, e).disk)
  {
    hide SealActive, DirectoryOk;
    match e
    case Receive(writeOk, ts, sealing, _) =>
      if s.active.Some? {
        SealDirectoryOk(cfg, Written(s), ts, sealing);
      }
    case Timeout(ts, sealing, _) =>
      if s.active.Some? {
        SealDirectoryOk(cfg, s, ts, sealing);
      }
    case Disconnected(ts, sealing) =>
      if s.active.Some? {
        SealDirectoryOk(cfg, s, ts, sealing);
      }
    case _ =>
  }

  // The cap over runs.

  lemma {:induction false} RunDirectoryOk(cfg: Config, s: State, events: seq<Event>)
    requires DirectoryOk(s.disk) && ValidRun(cfg, s, events)
    ensures DirectoryOk(Run(cfg, s, events).disk)
    decreases |events|
  {
    hide Step, Enabled, DirectoryOk;
    if events != [] {
      StepDirectoryOk(cfg, s, events[0]);
      RunDirectoryOk(cfg, Step(cfg, s, events[0]), events[1..]);
    }
  }

  /** What the cap takes is what is missing afterwards, one by one. */
  lemma {:induction false} GoneIsTheRest(full: Directory, total: int, maxTotal: nat, removable: set<string>)
    requires Sorted(full)
    ensures var kept := Survivors(full, total, maxTotal, removable); |Gone(full, kept)| == |full| - |kept|
    decreases |full|
  {
    if full == [] || total <= maxTotal {
      GoneOfMore(full, full, full);
    } else {
      FirstSortsFirst(full);
      var (e, rest) := (full[0], full[1..]);
      var left := if e.name in removable then total - e.value.size else total;
      GoneIsTheRest(rest, left, maxTotal, removable);
      var later := Survivors(rest, left, maxTotal, removable);
      assert e !in rest by {
        LexTotal(e.name, e.name);
      }
      GoneOfMore(rest, later, [e] + later);
    }
  }

  /** Only what is asked about matters. */
  lemma {:induction false} GoneOfMore(full: Directory, kept: Directory, more: Directory)
    requires forall e | e in full :: e in kept <==> e in more
    ensures Gone(full, kept) == Gone(full, more)
    ensures (forall e | e in full :: e in kept) ==> Gone(full, kept) == []
  {
    if full != [] {
      GoneOfMore(full[1..], kept, more);
    }
  }

  predicate StatsOk(s: State) {
    s.batchesEvicted == |s.evicted| && |s.sealed| <= s.batchesSealed && (s.faults == 0 ==> s.batchesSealed == |s.sealed|)
  }

  lemma SealStats(cfg: Config, s: State, ts: nat, sealing: Sealing)
    requires StatsOk(s) && s.active.Some? && DirectoryOk(s.disk)
    ensures StatsOk(SealActive(cfg, s, ts, sealing))
  {
    if sealing.Done? {
      var full := Put(BatchName(ts, s.batchesSealed), File(s.active.value, sealing.size), s.disk);
      BatchNamesAreBatchNames(ts, s.batchesSealed);
      hide BatchName, IsBatchName;
      PutOk(BatchName(ts, s.batchesSealed), File(s.active.value, sealing.size), s.disk);
      GoneIsTheRest(full, TotalSize(full), cfg.maxTotalBytes, sealing.removable);
    }
    hide Put, Gone, Survivors, BatchName;
  }

  lemma StepStats(cfg: Config, s: State, e: Event)
    requires StatsOk(s) && DirectoryOk(s.disk) && Enabled(s, e)
    ensures StatsOk(Step(cfg, s, e))
  {
    hide SealActive, Bytes, DirectoryOk;
    match e
    case Receive(writeOk, ts, sealing, _) =>
      if s.active.Some? && writeOk {
        SealStats(cfg, Written(s), ts, sealing);
      }
    case Timeout(ts, sealing, _) =>
      if s.active.Some? {
        SealStats(cfg, s, ts, sealing);
      }
    case Disconnected(ts, sealing) =>
      if s.active.Some? {
        SealStats(cfg, s, ts, sealing);
      }
    case _ =>
  }

  lemma {:induction false} RunStats(cfg: Config, s: State, events: seq<Event>)
    requires StatsOk(s) && DirectoryOk(s.disk) && ValidRun(cfg, s, events)
    ensures StatsOk(Run(cfg, s, events))
    decreases |events|
  {
    hide Step, Enabled, StatsOk, DirectoryOk;
    if events != [] {
      StepStats(cfg, s, events[0]);
      StepDirectoryOk(cfg, s, events[0]);
      RunStats(cfg, Step(cfg, s, events[0]), events[1..]);
    }
  }

  /** The counters of batches: evictions are counted one by one, and so are batches as long as nothing fails. */
  lemma BatchCountersAreExact(cfg: Config, leftover: Directory, events: seq<Event>)
    requires DirectoryOk(leftover) && ValidRun(cfg, Initial(leftover), events)
    ensures var s := Run(cfg, Initial(leftover), events);
      && s.batchesEvicted == |s.evicted|
      && |s.sealed| <= s.batchesSealed && (s.faults == 0 ==> s.batchesSealed == |s.sealed|)
  {
    RunStats(cfg, Initial(leftover), events);
  }

  predicate ExitsLast(s: State) {
    s.phase == Exited && s.faults == 0 ==> !s.sendersOpen
  }

  lemma StepExitsLast(cfg: Config, s: State, e: Event)
    requires ExitsLast(s) && Enabled(s, e)
    ensures ExitsLast(Step(cfg, s, e))
  {
    hide Put, Gone, AfterCap, BatchName, Bytes;
  }

  /** Unless the writer could not start, it goes on until nobody can submit any more. */
  lemma {:induction false} WriterOutlivesSenders(cfg: Config, s: State, events: seq<Event>)
    requires ExitsLast(s) && ValidRun(cfg, s, events)
    ensures var t := Run(cfg, s, events); t.phase == Exited && t.faults == 0 ==> !t.sendersOpen
    decreases |events|
  {
    if events != [] {
      StepExitsLast(cfg, s, events[0]);
      hide Step, Enabled;
      WriterOutlivesSenders(cfg, Step(cfg, s, events[0]), events[1..]);
    }
  }

  /** Whatever the event tries to do succeeds. */
  predicate Succeeds(e: Event) {
    match e
    case Start(ok) => ok
    case Receive(writeOk, _, sealing, reopenOk) => writeOk && sealing.Done? && reopenOk
    case Timeout(_, sealing, reopenOk) => sealing.Done? && reopenOk
    case Disconnected(_, sealing) => sealing.Done?
    case _ => true
  }

  predicate IsHealthy(s: State) {
    s.faults == 0 && (s.phase == Running ==> s.active.Some?)
  }

  lemma StepIsHealthy(cfg: Config, s: State, e: Event)
    requires IsHealthy(s) && Enabled(s, e) && Succeeds(e)
    ensures IsHealthy(Step(cfg, s, e))
  {
    hide Put, Gone, AfterCap, BatchName, Bytes;
  }

  /** No failure is counted where none happens. */
  lemma {:induction false} HealthyRun(cfg: Config, s: State, events: seq<Event>)
    requires IsHealthy(s) && ValidRun(cfg, s, events) && forall e | e in events :: Succeeds(e)
    ensures Run(cfg, s, events).faults == 0
    decreases |events|
  {
    if events != [] {
      assert events[0] in events && forall e | e in events[1..] :: e in events;
      StepIsHealthy(cfg, s, events[0]);
      hide Step, Enabled, Succeeds;
      HealthyRun(cfg, Step(cfg, s, events[0]), events[1..]);
    }
  }

  /**
   If every write, seal and reopening succeeds: all accepted lines are, in their order, in batches, in the active
   file or in the channel, and once the writer has exited, which it does after the last sender, all are in batches.
   */
  lemma NothingFailsNothingIsLost(cfg: Config, leftover: Directory, events: seq<Event>)
    requires ValidRun(cfg, Initial(leftover), events) && forall e | e in events :: Succeeds(e)
    ensures var s := Run(cfg, Initial(leftover), events);
      && Held(s) == s.accepted
      && (s.phase == Exited ==> AllLines(s.sealed) == s.accepted && !s.sendersOpen)
  {
    HealthyRun(cfg, Initial(leftover), events);
    Conservation(cfg, leftover, events);
    WriterOutlivesSenders(cfg, Initial(leftover), events);
    hide Run, ValidRun, Held, AllLines;
  }

  /** A line is turned away only by a full channel or after the writer has gone, and every other one is taken. */
  lemma TurnedAwayWhenFull(cfg: Config, leftover: Directory, events: seq<Event>, line: Line)
    requires ValidRun(cfg, Initial(leftover), events) && Enabled(Run(cfg, Initial(leftover), events), Submit(line))
    ensures var s := Run(cfg, Initial(leftover), events);
      var s' := Step(cfg, s, Submit(line));
      && s'.submissions == s.submissions + 1
      && if |s.queue| == cfg.channelCapacity || s.phase == Exited
         then s'.accepted == s.accepted && s'.eventsDropped == s.eventsDropped + 1 && s'.queue == s.queue
         else s'.accepted == s.accepted + [line] && s'.eventsDropped == s.eventsDropped && s'.queue == s.queue + [line]
  {
    StartIsOk(cfg, leftover);
    RunKeeps(cfg, Initial(leftover), events);
    hide Run, ValidRun, InOrder, AllWellCut, Proper;
  }

  lemma StartIsOk(cfg: Config, leftover: Directory)
    ensures Inv(cfg, Initial(leftover))
  {
    assert Held(Initial(leftover)) == [];
  }

  /** The seal an event performs, if it performs one, with the clock reading that goes into the name. */
  function SealOf(cfg: Config, s: State, e: Event): Option<(nat, Sealing)>
    requires Enabled(s, e)
  {
    match e
    case Receive(writeOk, ts, sealing, _) =>
      if s.active.Some? && writeOk && Bytes(Written(s).active.value) >= cfg.maxBytesPerFile then Some((ts, sealing)) else None
    case Timeout(ts, sealing, _) => if s.active.Some? && Bytes(s.active.value) > 0 then Some((ts, sealing)) else None
    case Disconnected(ts, sealing) => if s.active.Some? && Bytes(s.active.value) > 0 then Some((ts, sealing)) else None
    case _ => None
  }

  /** The directory is within the cap or holds only what cannot be removed, and whatever went sorts before what could have gone. */
  ghost predicate CapHolds(cfg: Config, s: State, s': State, removable: set<string>) {
    && (TotalSize(s'.disk) <= cfg.maxTotalBytes || forall e | e in s'.disk :: e.name !in removable)
    && (forall g | g in s'.evicted :: g in s.evicted || g.name in removable)
    && (forall g, k | g in s'.evicted && g !in s.evicted && k in s'.disk && k.name in removable :: LexLess(g.name, k.name))
  }

  lemma CapAfterSeal(cfg: Config, s: State, ts: nat, size: nat, removable: set<string>)
    requires s.active.Some? && DirectoryOk(s.disk)
    ensures CapHolds(cfg, s, SealActive(cfg, s, ts, Done(size, removable)), removable)
  {
    var (name, file) := (BatchName(ts, s.batchesSealed), File(s.active.value, size));
    BatchNamesAreBatchNames(ts, s.batchesSealed);
    PutOk(name, file, s.disk);
    hide Put, BatchName, IsBatchName, LexLess;
    var full := Put(name, file, s.disk);
    var total := TotalSize(full);
    OverTheCapIsStuck(full, total, cfg.maxTotalBytes, removable);
    EvictedWereRemovable(full, total, cfg.maxTotalBytes, removable);
    EvictedSortFirst(full, total, cfg.maxTotalBytes, removable);
    hide Survivors, TotalSize, Sorted;
  }

  /** After every seal of every run the directory is under the cap as far as files can be removed, the first names going first. */
  lemma CapOverRuns(cfg: Config, leftover: Directory, events: seq<Event>, e: Event)
    requires DirectoryOk(leftover) && ValidRun(cfg, Initial(leftover), events)
    requires var s := Run(cfg, Initial(leftover), events);
      Enabled(s, e) && SealOf(cfg, s, e).Some? && SealOf(cfg, s, e).value.1.Done?
    ensures var s := Run(cfg, Initial(leftover), events);
      CapHolds(cfg, s, Step(cfg, s, e), SealOf(cfg, s, e).value.1.removable)
  {
    RunDirectoryOk(cfg, Initial(leftover), events);
    var s := Run(cfg, Initial(leftover), events);
    var (ts, sealing) := SealOf(cfg, s, e).value;
    hide Run, ValidRun, SealActive, DirectoryOk, Bytes;
    CapAfterSeal(cfg, if e.Receive? then Written(s) else s, ts, sealing.size, sealing.removable);
    hide LexLess, TotalSize;
  }

  /** In terms of the clock and the sequence numbers: which of two batches goes first. */
  lemma EvictionOrder(cfg: Config, s: State, s': State, removable: set<string>, g: Named<File>, k: Named<File>,
                      ts: nat, n: nat, ts': nat, n': nat)
    requires CapHolds(cfg, s, s', removable)
    requires g in s'.evicted && g !in s.evicted && k in s'.disk && k.name in removable
    requires g.name == BatchName(ts, n) && k.name == BatchName(ts', n')
    ensures PrintsBefore(ts, ts') || (ts == ts' && PrintsBefore(n, n'))
    ensures |Decimal(ts)| == |Decimal(ts')| ==> ts <= ts'
    ensures ts == ts' && |Decimal(n)| == |Decimal(n')| ==> n < n'
  {
    hide BatchName, Decimal;
    NameOrder(ts, n, ts', n');
  }

  /** Within one second it can be the younger one: the tenth batch goes and the ninth stays. */
  lemma YoungerGoesFirst(ts: nat, a: File, b: File)
    requires a.size == 1 && b.size == 1
    ensures var (nine, ten) := (Named(BatchName(ts, 9), a), Named(BatchName(ts, 10), b));
      DirectoryOk([ten, nine]) && AfterCap([ten, nine], 1, {ten.name, nine.name}) == [nine]
  {
    TenthBatchSortsFirst(ts);
    BatchNamesAreBatchNames(ts, 9);
    BatchNamesAreBatchNames(ts, 10);
    hide BatchName, IsBatchName;
    var (nine, ten) := (Named(BatchName(ts, 9), a), Named(BatchName(ts, 10), b));
    var (disk, names) := ([ten, nine], {ten.name, nine.name});
    assert disk[1..] == [nine] && disk[1..][1..] == [];
    assert TotalSize(disk[1..]) == 1 && TotalSize(disk) == 2;
    assert disk[0].name in names;
    assert Survivors(disk, 2, 1, names) == Survivors(disk[1..], 1, 1, names) == [nine];
  }
}
