/**
 Counting sessions while the acceptor, the session workers and the reload of the manifests run side by side:
 `accept_loop` and `reload_loop` of src/plugin/server.rs, one atomic access per step.
 */
module Acceptor {
  import Framing
  import opened Manifests
  import opened Options
  import opened Session

  const MAX_CONCURRENT_SESSIONS: nat := 64

  /** Every store that has been shared so far; the last one is current. */
  type History = h: seq<Store> | h != [] witness [map[]]

  datatype Phase =
    | Waiting
    | Serving(hello: ClientFrame, manifest: Manifest, identity: Identity, sessionId: string)
    | Over

  /** The store of a session, with its place in the history and that of the store current at connection. */
  datatype Snapshot = Snapshot(store: Store, version: nat, connectedAt: nat)

  datatype Worker = Worker(held: Snapshot, phase: Phase)

  /** Between the two accesses to the counter the acceptor has counted a client and not yet decided on it. */
  datatype Deciding =
    | Listening
    | Counted(before: int, connectedAt: nat)
    | Holding(held: Snapshot)

  datatype Emission = Emission(id: nat, worker: Worker, record: Record)

  datatype State = State(
    active: int,                  // the shared counter
    history: History,
    acceptor: Deciding,
    workers: map<nat, Worker>,
    emissions: seq<Emission>,
    // Counts of what became of the clients that connected.
    connected: nat,
    refused: nat,
    notSpawned: nat,
    spawned: nat,
    exited: nat)

  datatype Action =
    | Connect
    | Refuse
    | TakeSnapshot
    | Spawn(ok: bool)
    | Hear(id: nat, frame: ClientFrame, identity: Identity, sessionId: string)
    | HangUp(id: nat)             // the end of the stream, an error on the pipe, an acknowledgement not sent
    | Exit(id: nat)
    | Reload(store: Store)

  predicate Enabled(s: State, a: Action) {
    match a
    case Connect => s.acceptor.Listening?
    case Refuse => s.acceptor.Counted? && s.acceptor.before >= MAX_CONCURRENT_SESSIONS
    case TakeSnapshot => s.acceptor.Counted? && s.acceptor.before < MAX_CONCURRENT_SESSIONS
    case Spawn(_) => s.acceptor.Holding?
    case Hear(id, _, _, _) => id in s.workers && !s.workers[id].phase.Over?
    case HangUp(id) => id in s.workers
    case Exit(id) => id in s.workers && s.workers[id].phase.Over?
    case Reload(_) => true
  }

  /** What a worker makes of a frame. */
  function Heard(w: Worker, frame: ClientFrame, identity: Identity, sessionId: string, host: Host): Worker {
    match w.phase
    case Waiting =>
      if !frame.Hello? then w.(phase := Over)
      else (
        match ValidateHandshake(frame, identity, w.held.store, host)
        case Bound(manifest) => w.(phase := Serving(frame, manifest, identity, sessionId))
        case Refused(_) => w.(phase := Over)
      )
    case Serving(_, _, _, _) => if frame.Event? || frame.Heartbeat? then w else w.(phase := Over)
    case Over => w
  }

  function Said(id: nat, w: Worker, frame: ClientFrame): seq<Emission> {
    if w.phase.Serving? && frame.Event? then
      [Emission(id, w, Attributed(w.phase.manifest, w.phase.identity, w.phase.sessionId, frame.event))]
    else []
  }

  function Step(host: Host, s: State, a: Action): State
    requires Enabled(s, a)
  {
    match a
    case Connect =>
      s.(active := s.active + 1, acceptor := Counted(s.active, |s.history| - 1), connected := s.connected + 1)
    case Refuse => s.(active := s.active - 1, acceptor := Listening, refused := s.refused + 1)
    case TakeSnapshot =>
      var current := |s.history| - 1;
      s.(acceptor := Holding(Snapshot(s.history[current], current, s.acceptor.connectedAt)))
    case Spawn(ok) =>
      if ok then
        s.(acceptor := Listening, spawned := s.spawned + 1,
           workers := s.workers[s.spawned := Worker(s.acceptor.held, Waiting)])
      else
        s.(active := s.active - 1, acceptor := Listening, notSpawned := s.notSpawned + 1)
    case Hear(id, frame, identity, sessionId) =>
      var w := s.workers[id];
      s.(workers := s.workers[id := Heard(w, frame, identity, sessionId, host)],
         emissions := s.emissions + Said(id, w, frame))
    case HangUp(id) => s.(workers := s.workers[id := s.workers[id].(phase := Over)])
    case Exit(id) => s.(active := s.active - 1, workers := s.workers - {id}, exited := s.exited + 1)
    case Reload(store) => s.(history := s.history + [store])
  }

  function Initial(store: Store): State {
    State(0, [store], Listening, map[], [], 0, 0, 0, 0, 0)
  }

  ghost predicate ValidRun(host: Host, s: State, actions: seq<Action>)
    decreases |actions|
  {
    actions == [] || (Enabled(s, actions[0]) && ValidRun(host, Step(host, s, actions[0]), actions[1..]))
  }

  ghost function Run(host: Host, s: State, actions: seq<Action>): State
    requires ValidRun(host, s, actions)
    decreases |actions|
  {
    if actions == [] then s else Run(host, Step(host, s, actions[0]), actions[1..])
  }

  // The invariant.

  function Undecided(s: State): nat {
    if s.acceptor.Listening? then 0 else 1
  }

  /** The counter and the limit. */
  predicate CountsOk(s: State) {
    && s.active == |s.workers| + Undecided(s)
    && |s.workers| <= MAX_CONCURRENT_SESSIONS
    && (s.acceptor.Counted? ==> |s.workers| <= s.acceptor.before)
    && (s.acceptor.Holding? ==> |s.workers| < MAX_CONCURRENT_SESSIONS)
    && s.connected == s.spawned + s.refused + s.notSpawned + Undecided(s)
    && s.spawned == |s.workers| + s.exited
  }

  /** Sessions are numbered as they are spawned. */
  predicate NumbersOk(s: State) {
    forall id | id in s.workers :: id < s.spawned
  }

  /** A store out of the history, not older than the one that was current at connection. */
  predicate HeldOk(history: History, held: Snapshot) {
    held.connectedAt <= held.version < |history| && held.store == history[held.version]
  }

  predicate WorkerOk(history: History, w: Worker, host: Host) {
    && HeldOk(history, w.held)
    && (w.phase.Serving? ==>
          w.phase.hello.Hello?
          && ValidateHandshake(w.phase.hello, w.phase.identity, w.held.store, host) == Bound(w.phase.manifest))
  }

  /** Said by a worker in session, under the id and name of the manifest it is bound to. */
  predicate EmissionOk(history: History, e: Emission, host: Host) {
    && WorkerOk(history, e.worker, host) && e.worker.phase.Serving?
    && var (r, phase) := (e.record, e.worker.phase);
    && r.pluginId == phase.manifest.pluginId && r.pluginName == phase.manifest.name
    && r.pid == phase.identity.pid && r.sessionId == phase.sessionId
  }

  predicate AcceptorOk(history: History, acceptor: Deciding) {
    && (acceptor.Counted? ==> acceptor.connectedAt < |history|)
    && (acceptor.Holding? ==> HeldOk(history, acceptor.held))
  }

  ghost predicate WorkersOk(history: History, workers: map<nat, Worker>, host: Host) {
    forall id | id in workers :: WorkerOk(history, workers[id], host)
  }

  ghost predicate EmissionsOk(history: History, emissions: seq<Emission>, host: Host) {
    forall e | e in emissions :: EmissionOk(history, e, host)
  }

  ghost predicate Inv(s: State, host: Host) {
    && CountsOk(s) && NumbersOk(s)
    && AcceptorOk(s.history, s.acceptor)
    && WorkersOk(s.history, s.workers, host)
    && EmissionsOk(s.history, s.emissions, host)
  }

  lemma MapSizes<V>(m: map<nat, V>, k: nat, v: V)
    ensures |m[k := v]| == if k in m then |m| else |m| + 1
    ensures k in m ==> |m - {k}| == |m| - 1
  {
    assert m[k := v].Keys == m.Keys + {k};
    assert (m - {k}).Keys == m.Keys - {k};
  }

  lemma CountsKept(host: Host, s: State, a: Action)
    requires Enabled(s, a) && CountsOk(s) && NumbersOk(s)
    ensures CountsOk(Step(host, s, a))
  {
    match a
    case Hear(id, _, _, _) => WorkersCounted(host, s, a, id);
    case HangUp(id) => WorkersCounted(host, s, a, id);
    case Exit(id) => WorkersCounted(host, s, a, id);
    case Spawn(ok) =>
      assert s.spawned !in s.workers;
      MapSizes(s.workers, s.spawned, Worker(s.acceptor.held, Waiting));
    case _ =>
  }

  lemma WorkersCounted(host: Host, s: State, a: Action, id: nat)
    requires Enabled(s, a) && CountsOk(s)
    requires (a.Hear? || a.HangUp? || a.Exit?) && a.id == id
    ensures CountsOk(Step(host, s, a))
  {
    hide Heard, Said;
    MapSizes(s.workers, id, if a.Exit? then s.workers[id] else Step(host, s, a).workers[id]);
  }

  lemma NumbersKept(host: Host, s: State, a: Action)
    requires Enabled(s, a) && NumbersOk(s)
    ensures NumbersOk(Step(host, s, a))
  {
    hide Heard, Said;
  }

  lemma HeardIsOk(history: History, id: nat, w: Worker, frame: ClientFrame, identity: Identity, sessionId: string,
                  host: Host)
    requires WorkerOk(history, w, host)
    ensures WorkerOk(history, Heard(w, frame, identity, sessionId, host), host)
    ensures forall e | e in Said(id, w, frame) :: EmissionOk(history, e, host)
  {
    hide ValidateHandshake;
  }

  /** What holds of a store in the history goes on holding when a new one is added. */
  lemma HistoryGrows(history: History, store: Store, host: Host)
    ensures forall held | HeldOk(history, held) :: HeldOk(history + [store], held)
    ensures forall w | WorkerOk(history, w, host) :: WorkerOk(history + [store], w, host)
    ensures forall e | EmissionOk(history, e, host) :: EmissionOk(history + [store], e, host)
  {
    hide ValidateHandshake;
  }

  lemma StepKeeps(host: Host, s: State, a: Action)
    requires Enabled(s, a) && Inv(s, host)
    ensures Inv(Step(host, s, a), host)
  {
    CountsKept(host, s, a);
    NumbersKept(host, s, a);
    hide CountsOk, NumbersOk, WorkerOk, EmissionOk, Heard, Said;
    match a
    case Hear(id, frame, identity, sessionId) =>
      HeardIsOk(s.history, id, s.workers[id], frame, identity, sessionId, host);
    case HangUp(id) =>
      OverIsOk(s.history, s.workers[id], host);
    case Spawn(_) =>
      WaitingIsOk(s.history, s.acceptor.held, host);
    case Reload(store) =>
      HistoryGrows(s.history, store, host);
    case _ =>
  }

  lemma OverIsOk(history: History, w: Worker, host: Host)
    requires WorkerOk(history, w, host)
    ensures WorkerOk(history, w.(phase := Over), host)
  {
  }

  lemma WaitingIsOk(history: History, held: Snapshot, host: Host)
    requires HeldOk(history, held)
    ensures WorkerOk(history, Worker(held, Waiting), host)
  {
  }

  lemma {:induction false} RunKeeps(host: Host, s: State, actions: seq<Action>)
    requires ValidRun(host, s, actions) && Inv(s, host)
    ensures Inv(Run(host, s, actions), host)
    decreases |actions|
  {
    if actions != [] {
      hide Inv, Enabled, Step;
      StepKeeps(host, s, actions[0]);
      RunKeeps(host, Step(host, s, actions[0]), actions[1..]);
    }
  }

  // What holds at every moment of every run.

  /**
   The counter is the number of live workers and one more while the acceptor is deciding; no more than 64
   workers are ever live; and every client that connected is live, gone, refused, not spawned or being decided on.
   */
  lemma SessionsAreCounted(host: Host, store: Store, actions: seq<Action>)
    requires ValidRun(host, Initial(store), actions)
    ensures var s := Run(host, Initial(store), actions);
      && s.active == |s.workers| + Undecided(s)
      && |s.workers| <= 64
      && s.connected == |s.workers| + s.exited + s.refused + s.notSpawned + Undecided(s)
  {
    RunKeeps(host, Initial(store), actions);
  }

  /** A client is refused for want of room exactly if 64 workers are live when it is counted. */
  lemma RefusedWhenFull(host: Host, store: Store, actions: seq<Action>)
    requires ValidRun(host, Initial(store), actions)
    ensures var s := Run(host, Initial(store), actions);
      Enabled(s, Connect) ==>
        (Enabled(Step(host, s, Connect), Refuse) <==> |s.workers| == 64)
        && (Enabled(Step(host, s, Connect), TakeSnapshot) <==> |s.workers| < 64)
  {
    RunKeeps(host, Initial(store), actions);
  }

  /**
   Whatever goes out was said in a session whose handshake succeeded against a store that was current when its
   client connected or later, and carries the id and name that store has for it, with its process and session.
   */
  lemma OnlyTheAdmittedAreHeard(host: Host, store: Store, actions: seq<Action>, e: Emission)
    requires ValidRun(host, Initial(store), actions) && e in Run(host, Initial(store), actions).emissions
    ensures var (history, held) := (Run(host, Initial(store), actions).history, e.worker.held);
      && held.connectedAt <= held.version < |history| && held.store == history[held.version]
      && e.worker.phase.Serving? && e.worker.phase.hello.Hello?
      && ValidateHandshake(e.worker.phase.hello, e.worker.phase.identity, held.store, host).Bound?
      && var (r, id) := (e.record, e.worker.phase.hello.pluginId);
      && id in held.store && r.pluginId == held.store[id].pluginId && r.pluginName == held.store[id].name
      && r.pid == e.worker.phase.identity.pid && r.sessionId == e.worker.phase.sessionId
      && (KeyedById(held.store) ==> r.pluginId == id)
  {
    hide ValidateHandshake;
    RunKeeps(host, Initial(store), actions);
  }

  /** From some version of the manifests on, the plugin is not enrolled or is revoked. */
  ghost predicate ShutOut(history: History, since: nat, id: string) {
    forall v | since <= v < |history| && id in history[v] :: history[v][id].revoked
  }

  /** A client that connects once its plugin has been revoked or removed is never heard: no record carries its id. */
  lemma RevokedIsNotHeard(host: Host, store: Store, actions: seq<Action>, id: string, since: nat, e: Emission)
    requires ValidRun(host, Initial(store), actions) && e in Run(host, Initial(store), actions).emissions
    requires ShutOut(Run(host, Initial(store), actions).history, since, id) && e.worker.held.connectedAt >= since
    ensures e.worker.phase.Serving? && e.worker.phase.hello.Hello? && e.worker.phase.hello.pluginId != id
    ensures KeyedById(e.worker.held.store) ==> e.record.pluginId != id
  {
    OnlyTheAdmittedAreHeard(host, store, actions, e);
    var (held, phase) := (e.worker.held, e.worker.phase);
    AdmittedExactlyWhen(phase.hello, phase.identity, held.store, host);
  }

  // Sessions do not mix.

  /** What one worker has emitted. */
  function EmittedBy(emissions: seq<Emission>, id: nat): seq<Record> {
    if emissions == [] then []
    else
      var n := |emissions| - 1;
      EmittedBy(emissions[..n], id) + if emissions[n].id == id then [emissions[n].record] else []
  }

  /** The frames one worker gets to hear, with what is known of its client. */
  function HeardBy(actions: seq<Action>, id: nat): (r: seq<Action>)
    ensures forall i | 0 <= i < |r| :: r[i].Hear?
  {
    if actions == [] then []
    else (if actions[0].Hear? && actions[0].id == id then [actions[0]] else []) + HeardBy(actions[1..], id)
  }

  function FramesOf(heard: seq<Action>): (r: seq<ClientFrame>)
    requires forall i | 0 <= i < |heard| :: heard[i].Hear?
    ensures |r| == |heard| && forall i | 0 <= i < |r| :: r[i] == heard[i].frame
  {
    seq(|heard|, i requires 0 <= i < |heard| => heard[i].frame)
  }

  /** What a session with nothing beside it emits for these frames, against this store. */
  function Alone(heard: seq<Action>, last: Framing.Reading<ClientFrame>, store: Store, host: Host): seq<Record>
    requires forall i | 0 <= i < |heard| :: heard[i].Hear?
  {
    if heard == [] then []
    else Whole(FramesOf(heard), last, Some(heard[0].identity), store, host, heard[0].sessionId, true).emitted
  }

  /** And what it will still emit, from the phase it is in. */
  function StillEmits(w: Worker, heard: seq<Action>, last: Framing.Reading<ClientFrame>, host: Host): seq<Record>
    requires forall i | 0 <= i < |heard| :: heard[i].Hear?
  {
    match w.phase
    case Waiting => Alone(heard, last, w.held.store, host)
    case Serving(_, m, identity, sessionId) => Records(m, identity, sessionId, Serve(FramesOf(heard), last).events)
    case Over => []
  }

  lemma HeardNext(actions: seq<Action>, id: nat)
    requires actions != []
    ensures HeardBy(actions, id)
         == (if actions[0].Hear? && actions[0].id == id then [actions[0]] else []) + HeardBy(actions[1..], id)
  {
  }

  lemma EmittedMore(emissions: seq<Emission>, id: nat, w: Worker, frame: ClientFrame, id': nat)
    ensures EmittedBy(emissions + Said(id, w, frame), id')
         == EmittedBy(emissions, id')
            + if id' == id then (if Said(id, w, frame) == [] then [] else [Said(id, w, frame)[0].record]) else []
  {
    var said := Said(id, w, frame);
    if said == [] {
      assert emissions + said == emissions;
    } else {
      assert (emissions + said)[..|emissions|] == emissions;
    }
  }

  /** One frame more: what is said at once and what is emitted for the rest is what is emitted for all. */
  lemma OneFrameHeard(id: nat, w: Worker, a: Action, rest: seq<Action>, last: Framing.Reading<ClientFrame>, host: Host)
    requires a.Hear? && a.id == id && !w.phase.Over? && forall i | 0 <= i < |rest| :: rest[i].Hear?
    ensures var (said, w') := (Said(id, w, a.frame), Heard(w, a.frame, a.identity, a.sessionId, host));
      StillEmits(w, [a] + rest, last, host)
      == (if said == [] then [] else [said[0].record]) + StillEmits(w', rest, last, host)
  {
    hide ValidateHandshake;
    var heard := [a] + rest;
    assert FramesOf(heard)[1..] == FramesOf(rest) && FramesOf(heard)[0] == a.frame && heard[0] == a;
    if w.phase.Serving? && a.frame.Event? {
      var (m, identity, sessionId) := (w.phase.manifest, w.phase.identity, w.phase.sessionId);
      var more := Serve(FramesOf(rest), last).events;
      assert Records(m, identity, sessionId, [a.frame.event] + more)
          == [Attributed(m, identity, sessionId, a.frame.event)] + Records(m, identity, sessionId, more);
    }
  }

  lemma NothingHeard(w: Worker, last: Framing.Reading<ClientFrame>, host: Host)
    ensures StillEmits(w, [], last, host) == []
  {
  }

  predicate Concerns(a: Action, id: nat) {
    (a.Hear? || a.HangUp? || a.Exit?) && a.id == id
  }

  /** What does not concern a worker leaves it, and what it has emitted, as they are. */
  lemma StepBeside(host: Host, s: State, a: Action, id: nat)
    requires Enabled(s, a) && NumbersOk(s) && !Concerns(a, id)
    ensures EmittedBy(Step(host, s, a).emissions, id) == EmittedBy(s.emissions, id)
    ensures id in s.workers ==> id in Step(host, s, a).workers && Step(host, s, a).workers[id] == s.workers[id]
    ensures id !in s.workers && !(a.Spawn? && a.ok && id == s.spawned) ==> id !in Step(host, s, a).workers
    ensures s.spawned <= Step(host, s, a).spawned
  {
    if a.Hear? {
      EmittedMore(s.emissions, a.id, s.workers[a.id], a.frame, id);
    }
    hide Heard, Said, EmittedBy;
  }

  lemma HeardBeside(actions: seq<Action>, id: nat)
    requires actions != [] && !Concerns(actions[0], id)
    ensures HeardBy(actions, id) == HeardBy(actions[1..], id)
  {
  }

  /** A worker that is over, or gone, neither hears nor emits anything. */
  lemma {:induction false} OverIsSilent(host: Host, s: State, actions: seq<Action>, id: nat)
    requires ValidRun(host, s, actions) && NumbersOk(s)
    requires id < s.spawned && (id in s.workers ==> s.workers[id].phase.Over?)
    ensures HeardBy(actions, id) == [] && EmittedBy(Run(host, s, actions).emissions, id) == EmittedBy(s.emissions, id)
    decreases |actions|
  {
    hide Heard, Said, EmittedBy, NumbersOk;
    if actions != [] {
      var a := actions[0];
      NumbersKept(host, s, a);
      if !Concerns(a, id) {
        StepBeside(host, s, a, id);
      }
      OverIsSilent(host, Step(host, s, a), actions[1..], id);
    }
  }

  lemma HearStep(host: Host, s: State, a: Action, rest: seq<Action>, last: Framing.Reading<ClientFrame>)
    requires Enabled(s, a) && a.Hear? && forall i | 0 <= i < |rest| :: rest[i].Hear?
    ensures var (id, s') := (a.id, Step(host, s, a));
      id in s'.workers
      && EmittedBy(s'.emissions, id) + StillEmits(s'.workers[id], rest, last, host)
         == EmittedBy(s.emissions, id) + StillEmits(s.workers[id], [a] + rest, last, host)
  {
    hide StillEmits, Said, Heard, EmittedBy;
    var (id, w) := (a.id, s.workers[a.id]);
    EmittedMore(s.emissions, id, w, a.frame, id);
    OneFrameHeard(id, w, a, rest, last, host);
    var s' := Step(host, s, a);
    assert s'.workers[id] == Heard(w, a.frame, a.identity, a.sessionId, host);
    assert s'.emissions == s.emissions + Said(id, w, a.frame);
    hide Step, Enabled;
  }

  /** What a live worker has emitted in the end: what it had, and what its session makes of the frames to come. */
  lemma {:induction false} LiveEmits(host: Host, s: State, actions: seq<Action>, id: nat,
                                     last: Framing.Reading<ClientFrame>)
    requires ValidRun(host, s, actions) && NumbersOk(s) && id in s.workers
    ensures EmittedBy(Run(host, s, actions).emissions, id)
         == EmittedBy(s.emissions, id) + StillEmits(s.workers[id], HeardBy(actions, id), last, host)
    decreases |actions|
  {
    hide StillEmits, Said, Heard, EmittedBy, HeardBy;
    NothingHeard(s.workers[id], last, host);
    if actions == [] {
      NothingIsHeard(id);
    } else {
      var (a, rest, s') := (actions[0], actions[1..], Step(host, s, actions[0]));
      NumbersKept(host, s, a);
      HeardNext(actions, id);
      if !Concerns(a, id) {
        HeardBeside(actions, id);
        StepBeside(host, s, a, id);
        LiveEmits(host, s', rest, id, last);
      } else if a.Hear? {
        HearStep(host, s, a, HeardBy(rest, id), last);
        LiveEmits(host, s', rest, id, last);
      } else {
        OverIsSilent(host, s', rest, id);
      }
    }
  }

  lemma NothingIsHeard(id: nat)
    ensures HeardBy([], id) == []
  {
  }

  lemma {:induction false} HistoryIsKept(host: Host, s: State, actions: seq<Action>)
    requires ValidRun(host, s, actions)
    ensures s.history <= Run(host, s, actions).history
    decreases |actions|
  {
    if actions != [] {
      hide Heard, Said;
      HistoryIsKept(host, Step(host, s, actions[0]), actions[1..]);
    }
  }

  lemma {:induction false} WillEmit(host: Host, s: State, actions: seq<Action>, id: nat,
                                    last: Framing.Reading<ClientFrame>) returns (held: Snapshot)
    requires ValidRun(host, s, actions) && Inv(s, host) && id >= s.spawned && EmittedBy(s.emissions, id) == []
    ensures HeldOk(Run(host, s, actions).history, held)
    ensures EmittedBy(Run(host, s, actions).emissions, id) == Alone(HeardBy(actions, id), last, held.store, host)
    decreases |actions|
  {
    hide Said, Heard, EmittedBy, HeardBy, Alone, CountsOk, WorkersOk, EmissionsOk;
    if actions == [] {
      NothingIsHeard(id);
      AloneOfNothing(last, s.history[0], host);
      held := Snapshot(s.history[0], 0, 0);
    } else {
      var (a, rest, s') := (actions[0], actions[1..], Step(host, s, actions[0]));
      StepKeeps(host, s, a);
      HeardBeside(actions, id);
      StepBeside(host, s, a, id);
      if a.Spawn? && a.ok && id == s.spawned {
        held := s.acceptor.held;
        HistoryIsKept(host, s', rest);
        LiveEmits(host, s', rest, id, last);
        assert StillEmits(s'.workers[id], HeardBy(rest, id), last, host) == Alone(HeardBy(rest, id), last, held.store, host);
      } else {
        held := WillEmit(host, s', rest, id, last);
      }
    }
  }

  lemma AloneOfNothing(last: Framing.Reading<ClientFrame>, store: Store, host: Host)
    ensures Alone([], last, store, host) == []
  {
  }

  lemma StartIsOk(host: Host, store: Store)
    ensures Inv(Initial(store), host)
  {
  }

  /**
   However connections, sessions and reloads interleave, each session emits exactly what a session alone emits for
   the frames it hears, against one store that was shared by then: no record is lost, doubled or taken from another.
   */
  lemma SessionsDoNotMix(host: Host, store: Store, actions: seq<Action>, id: nat, last: Framing.Reading<ClientFrame>)
    requires ValidRun(host, Initial(store), actions)
    ensures var s := Run(host, Initial(store), actions);
      exists held :: HeldOk(s.history, held)
                     && EmittedBy(s.emissions, id) == Alone(HeardBy(actions, id), last, held.store, host)
  {
    hide Alone, HeardBy, Run, ValidRun, CountsOk, NumbersOk;
    StartIsOk(host, store);
    hide Inv;
    var held := WillEmit(host, Initial(store), actions, id, last);
  }
}
