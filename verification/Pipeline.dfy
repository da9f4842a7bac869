/**
 Spools and shipper together: every interleaving of the writers of src/spool/writer.rs with the shipper of
 src/shipper/run.rs, step by step. Sealing is one step.
 */
module Pipeline {
  import opened Options
  import opened Text
  import opened Sorting
  import opened BatchNames
  import opened Eviction
  import Spool
  import Shipper

  /** A 2xx answer to the content of a batch. */
  datatype Ack = Ack(dir: nat, name: string, lines: seq<Line>)

  datatype Shipping =
    | Idle
    | Picked(pick: Shipper.Pick)
    | Loaded(pick: Shipper.Pick, lines: seq<Line>)
    | Answered(pick: Shipper.Pick, lines: seq<Line>)

  datatype State = State(spools: seq<Spool.State>, shipping: Shipping, acks: seq<Ack>)

  datatype Action =
    | OnSpool(i: nat, event: Spool.Event)
    | Scan(readable: set<nat>, found: Option<Shipper.Pick>)
    | Load(file: File)
    | GiveUp                    // the read failed, a 4xx, a 5xx, a network error
    | Accept                    // a 2xx
    | Unlink(ok: bool)

  function NamesIn(disk: Directory): (r: seq<string>)
    ensures |r| == |disk| && forall i | 0 <= i < |r| :: r[i] == disk[i].name
  {
    seq(|disk|, i requires 0 <= i < |disk| => disk[i].name)
  }

  function Listings(spools: seq<Spool.State>, readable: set<nat>): Shipper.Listings {
    seq(|spools|, i requires 0 <= i < |spools| =>
      if i in readable then Some(NamesIn(spools[i].disk)) else None)
  }

  ghost predicate Enabled(s: State, a: Action) {
    match a
    case OnSpool(i, e) => i < |s.spools| && Spool.Enabled(s.spools[i], e)
    case Scan(readable, found) => s.shipping.Idle? && Shipper.IsOldest(Listings(s.spools, readable), found)
    case Load(file) =>
      s.shipping.Picked? && s.shipping.pick.dir < |s.spools|
      && Named(s.shipping.pick.name, file) in s.spools[s.shipping.pick.dir].disk
    case GiveUp => s.shipping.Picked? || s.shipping.Loaded?
    case Accept => s.shipping.Loaded?
    case Unlink(ok) => s.shipping.Answered? && s.shipping.pick.dir < |s.spools|
  }

  function Step(cfgs: seq<Spool.Config>, s: State, a: Action): (r: State)
    requires |cfgs| == |s.spools| && Enabled(s, a)
    ensures |r.spools| == |s.spools|
  {
    match a
    case OnSpool(i, e) => s.(spools := s.spools[i := Spool.Step(cfgs[i], s.spools[i], e)])
    case Scan(_, found) => s.(shipping := if found.Some? then Picked(found.value) else Idle)
    case Load(file) => s.(shipping := Loaded(s.shipping.pick, file.lines))
    case GiveUp => s.(shipping := Idle)
    case Accept =>
      var (pick, lines) := (s.shipping.pick, s.shipping.lines);
      s.(shipping := Answered(pick, lines), acks := s.acks + [Ack(pick.dir, pick.name, lines)])
    case Unlink(ok) =>
      var (pick, spool) := (s.shipping.pick, s.spools[s.shipping.pick.dir]);
      s.(shipping := Idle,
         spools := if ok then s.spools[pick.dir := spool.(disk := Spool.Remove(pick.name, spool.disk))] else s.spools)
  }

  function Initial(leftovers: seq<Directory>): State {
    State(seq(|leftovers|, i requires 0 <= i < |leftovers| => Spool.Initial(leftovers[i])), Idle, [])
  }

  // What becomes of a batch.

  /** The file a seal creates under the final name: the whole batch, or what a failed compression leaves of it. */
  function StoredBy(s: Spool.State, ts: nat, sealing: Spool.Sealing): Option<Named<File>>
    requires s.active.Some?
  {
    var name := BatchName(ts, s.batchesSealed);
    match sealing
    case Done(size, _) => Some(Named(name, File(s.active.value, size)))
    case CompressFailed(Some(partial)) => Some(Named(name, partial))
    case _ => None
  }

  /** The file an event creates, if it seals and gets that far. */
  function Stored(cfg: Spool.Config, s: Spool.State, e: Spool.Event): Option<Named<File>>
    requires Spool.Enabled(s, e)
  {
    match e
    case Receive(writeOk, ts, sealing, _) =>
      if s.active.Some? && writeOk && Spool.Bytes(Spool.Written(s).active.value) >= cfg.maxBytesPerFile
      then StoredBy(Spool.Written(s), ts, sealing) else None
    case Timeout(ts, sealing, _) =>
      if s.active.Some? && Spool.Bytes(s.active.value) > 0 then StoredBy(s, ts, sealing) else None
    case Disconnected(ts, sealing) =>
      if s.active.Some? && Spool.Bytes(s.active.value) > 0 then StoredBy(s, ts, sealing) else None
    case _ => None
  }

  /** The batches the spool answers for: those an earlier run left and those of this run. */
  predicate Owed(s: Spool.State, leftover: Directory, b: Named<File>) {
    b in leftover || b in s.sealed
  }

  /** Where such a batch can be: on disk, acknowledged with its full content, or evicted by the cap. */
  predicate Accounted(spool: Spool.State, acks: seq<Ack>, i: nat, b: Named<File>) {
    b in spool.disk || Ack(i, b.name, b.value.lines) in acks || b in spool.evicted
  }

  /**
   The step takes away the only copy: it unlinks the name without an acknowledgement of this content, or it
   creates another file under the name.
   */
  ghost predicate Loses(cfgs: seq<Spool.Config>, s: State, a: Action, i: nat, b: Named<File>)
    requires |cfgs| == |s.spools| && i < |s.spools| && Enabled(s, a)
  {
    && b in s.spools[i].disk && Ack(i, b.name, b.value.lines) !in s.acks && b !in s.spools[i].evicted
    && match a
       case Unlink(ok) => ok && s.shipping.pick == Shipper.Pick(i, b.name)
       case OnSpool(j, e) =>
         j == i && var c := Stored(cfgs[i], s.spools[i], e); c.Some? && c.value.name == b.name && c.value != b
       case _ => false
  }

  /** What an event does to directory and history, given the file it creates. */
  ghost predicate Effect(s: Spool.State, s': Spool.State, stored: Option<Named<File>>) {
    && s.batchesSealed <= s'.batchesSealed
    && (stored.None? ==> s'.disk == s.disk && s'.sealed == s.sealed && s'.evicted == s.evicted)
    && (stored.Some? ==>
          && s.batchesSealed < s'.batchesSealed
          && (s'.sealed == s.sealed || s'.sealed == s.sealed + [stored.value])
          && (forall e | e in s.evicted :: e in s'.evicted)
          && (forall e | InPlace(s, stored.value, e) :: e in s'.disk || e in s'.evicted)
          && (forall e | e in s'.disk :: InPlace(s, stored.value, e))
          && (forall e | e in s'.evicted :: e in s.evicted || InPlace(s, stored.value, e)))
  }

  /** On disk once `c` has been created. */
  predicate InPlace(s: Spool.State, c: Named<File>, e: Named<File>) {
    e == c || (e in s.disk && e.name != c.name)
  }

  lemma SealHasEffect(cfg: Spool.Config, s: Spool.State, ts: nat, sealing: Spool.Sealing)
    requires s.active.Some?
    ensures Effect(s, Spool.SealActive(cfg, s, ts, sealing), StoredBy(s, ts, sealing))
  {
    hide BatchName;
    match sealing
    case Done(size, removable) =>
      var (c, s') := (Named(BatchName(ts, s.batchesSealed), File(s.active.value, size)), Spool.SealActive(cfg, s, ts, sealing));
      var full := Spool.Put(c.name, c.value, s.disk);
      assert forall e :: e in full <==> InPlace(s, c, e);
      StaysOrGoes(full, cfg.maxTotalBytes, removable);
      hide AfterCap;
      assert s'.disk == AfterCap(full, cfg.maxTotalBytes, removable);
    case _ =>
  }

  lemma StaysOrGoes(full: Directory, maxTotal: nat, removable: set<string>)
    ensures forall e | e in AfterCap(full, maxTotal, removable) :: e in full
    ensures forall e | e in full :: e in AfterCap(full, maxTotal, removable)
                                 || e in Spool.Gone(full, AfterCap(full, maxTotal, removable))
  {
  }

  /** The two states show the same directory and history. */
  predicate SameView(s: Spool.State, t: Spool.State) {
    s.disk == t.disk && s.sealed == t.sealed && s.evicted == t.evicted && s.batchesSealed == t.batchesSealed
  }

  lemma EffectOfSameView(s: Spool.State, t: Spool.State, t': Spool.State, s': Spool.State, stored: Option<Named<File>>)
    requires Effect(t, t', stored) && SameView(s, t) && SameView(s', t')
    ensures Effect(s, s', stored)
  {
    assert forall e :: stored.Some? ==> (InPlace(s, stored.value, e) <==> InPlace(t, stored.value, e));
  }

  lemma EventHasEffect(cfg: Spool.Config, s: Spool.State, e: Spool.Event)
    requires Spool.Enabled(s, e)
    ensures Effect(s, Spool.Step(cfg, s, e), Stored(cfg, s, e))
  {
    hide Spool.SealActive, StoredBy, Spool.Bytes;
    var s' := Spool.Step(cfg, s, e);
    match e
    case Receive(writeOk, ts, sealing, reopenOk) =>
      if s.active.Some? && writeOk {
        var t := Spool.Written(s);
        SealHasEffect(cfg, t, ts, sealing);
        hide Effect;
        if Spool.Bytes(t.active.value) >= cfg.maxBytesPerFile {
          EffectOfSameView(s, t, Spool.SealActive(cfg, t, ts, sealing), s', StoredBy(t, ts, sealing));
        } else {
          NoEffect(s, s');
        }
      }
    case Timeout(ts, sealing, reopenOk) =>
      if s.active.Some? {
        SealHasEffect(cfg, s, ts, sealing);
        hide Effect;
        if Spool.Bytes(s.active.value) > 0 {
          EffectOfSameView(s, s, Spool.SealActive(cfg, s, ts, sealing), s', StoredBy(s, ts, sealing));
        } else {
          NoEffect(s, s');
        }
      }
    case Disconnected(ts, sealing) =>
      if s.active.Some? {
        SealHasEffect(cfg, s, ts, sealing);
        hide Effect;
        if Spool.Bytes(s.active.value) > 0 {
          EffectOfSameView(s, s, Spool.SealActive(cfg, s, ts, sealing), s', StoredBy(s, ts, sealing));
        } else {
          NoEffect(s, s');
        }
      }
    case _ =>
  }

  lemma NoEffect(s: Spool.State, s': Spool.State)
    requires SameView(s, s')
    ensures Effect(s, s', None)
  {
  }

  /** A batch that is accounted for stops being so exactly at the steps that take away its only copy. */
  lemma LostExactlyWhen(cfgs: seq<Spool.Config>, s: State, a: Action, i: nat, b: Named<File>)
    requires |cfgs| == |s.spools| && i < |s.spools| && Enabled(s, a)
    requires Accounted(s.spools[i], s.acks, i, b)
    ensures !Accounted(Step(cfgs, s, a).spools[i], Step(cfgs, s, a).acks, i, b) <==> Loses(cfgs, s, a, i, b)
  {
    hide Spool.Step, Stored;
    if a.OnSpool? && a.i == i {
      EventHasEffect(cfgs[i], s.spools[i], a.event);
    }
  }

  /** What a step adds to the batches that are owed is accounted for; none is ever taken off that list. */
  lemma OwedStaysOwed(cfgs: seq<Spool.Config>, leftover: Directory, s: State, a: Action, i: nat, b: Named<File>)
    requires |cfgs| == |s.spools| && i < |s.spools| && Enabled(s, a)
    ensures Owed(s.spools[i], leftover, b) ==> Owed(Step(cfgs, s, a).spools[i], leftover, b)
    ensures Owed(Step(cfgs, s, a).spools[i], leftover, b) && !Owed(s.spools[i], leftover, b) ==>
      Accounted(Step(cfgs, s, a).spools[i], Step(cfgs, s, a).acks, i, b)
  {
    hide Spool.Step, Stored;
    if a.OnSpool? && a.i == i {
      EventHasEffect(cfgs[i], s.spools[i], a.event);
    }
  }

  ghost predicate ValidRun(cfgs: seq<Spool.Config>, leftovers: seq<Directory>, s: State, actions: seq<Action>)
    requires |cfgs| == |s.spools| == |leftovers|
    decreases |actions|
  {
    actions == [] ||
    (Enabled(s, actions[0]) && ValidRun(cfgs, leftovers, Step(cfgs, s, actions[0]), actions[1..]))
  }

  ghost function Run(cfgs: seq<Spool.Config>, leftovers: seq<Directory>, s: State, actions: seq<Action>): (r: State)
    requires |cfgs| == |s.spools| == |leftovers| && ValidRun(cfgs, leftovers, s, actions)
    ensures |r.spools| == |s.spools|
    decreases |actions|
  {
    if actions == [] then s else Run(cfgs, leftovers, Step(cfgs, s, actions[0]), actions[1..])
  }

  // Over runs.

  ghost predicate AllAccounted(s: State, leftovers: seq<Directory>)
    requires |leftovers| == |s.spools|
  {
    forall i, b | 0 <= i < |s.spools| && Owed(s.spools[i], leftovers[i], b) :: Accounted(s.spools[i], s.acks, i, b)
  }

  ghost predicate AccountedThroughout(cfgs: seq<Spool.Config>, leftovers: seq<Directory>, s: State, actions: seq<Action>)
    requires |cfgs| == |s.spools| == |leftovers| && ValidRun(cfgs, leftovers, s, actions)
    decreases |actions|
  {
    AllAccounted(s, leftovers)
    && (actions != [] ==> AccountedThroughout(cfgs, leftovers, Step(cfgs, s, actions[0]), actions[1..]))
  }

  ghost predicate LosesNothing(cfgs: seq<Spool.Config>, leftovers: seq<Directory>, s: State, a: Action)
    requires |cfgs| == |s.spools| == |leftovers| && Enabled(s, a)
  {
    forall i, b | 0 <= i < |s.spools| && Owed(s.spools[i], leftovers[i], b) :: !Loses(cfgs, s, a, i, b)
  }

  ghost predicate NoStepLoses(cfgs: seq<Spool.Config>, leftovers: seq<Directory>, s: State, actions: seq<Action>)
    requires |cfgs| == |s.spools| == |leftovers| && ValidRun(cfgs, leftovers, s, actions)
    decreases |actions|
  {
    actions == [] ||
    (LosesNothing(cfgs, leftovers, s, actions[0])
     && NoStepLoses(cfgs, leftovers, Step(cfgs, s, actions[0]), actions[1..]))
  }

  lemma StepAccounts(cfgs: seq<Spool.Config>, leftovers: seq<Directory>, s: State, a: Action)
    requires |cfgs| == |s.spools| == |leftovers| && Enabled(s, a) && AllAccounted(s, leftovers)
    ensures AllAccounted(Step(cfgs, s, a), leftovers) <==> LosesNothing(cfgs, leftovers, s, a)
  {
    hide Step, Enabled, Loses, Owed, Accounted;
    var s' := Step(cfgs, s, a);
    forall i, b | 0 <= i < |s.spools|
      ensures Owed(s.spools[i], leftovers[i], b) ==>
        Owed(s'.spools[i], leftovers[i], b) && (!Accounted(s'.spools[i], s'.acks, i, b) <==> Loses(cfgs, s, a, i, b))
      ensures Owed(s'.spools[i], leftovers[i], b) && !Owed(s.spools[i], leftovers[i], b) ==>
        Accounted(s'.spools[i], s'.acks, i, b)
    {
      OwedStaysOwed(cfgs, leftovers[i], s, a, i, b);
      if Owed(s.spools[i], leftovers[i], b) {
        LostExactlyWhen(cfgs, s, a, i, b);
      }
    }
  }

  lemma {:induction false} AccountedFromHere(cfgs: seq<Spool.Config>, leftovers: seq<Directory>, s: State,
                                             actions: seq<Action>)
    requires |cfgs| == |s.spools| == |leftovers| && ValidRun(cfgs, leftovers, s, actions) && AllAccounted(s, leftovers)
    ensures AccountedThroughout(cfgs, leftovers, s, actions) <==> NoStepLoses(cfgs, leftovers, s, actions)
    decreases |actions|
  {
    hide Step, Enabled, LosesNothing, AllAccounted;
    if actions != [] {
      StepAccounts(cfgs, leftovers, s, actions[0]);
      if AllAccounted(Step(cfgs, s, actions[0]), leftovers) {
        AccountedFromHere(cfgs, leftovers, Step(cfgs, s, actions[0]), actions[1..]);
      }
    }
  }

  /**
   Over every interleaving of writers and shipper, whatever earlier runs left behind: every batch that is owed is
   at every moment on disk, acknowledged with its full content, or evicted by the cap, if and only if no step of
   the run takes away the only copy of one.
   */
  lemma AccountedExactlyWhen(cfgs: seq<Spool.Config>, leftovers: seq<Directory>, actions: seq<Action>)
    requires |cfgs| == |leftovers| && ValidRun(cfgs, leftovers, Initial(leftovers), actions)
    ensures AccountedThroughout(cfgs, leftovers, Initial(leftovers), actions)
       <==> NoStepLoses(cfgs, leftovers, Initial(leftovers), actions)
  {
    AccountedFromHere(cfgs, leftovers, Initial(leftovers), actions);
  }

  /** What is so at every moment is so at the end. */
  lemma {:induction false} AccountedAtTheEnd(cfgs: seq<Spool.Config>, leftovers: seq<Directory>, s: State,
                                             actions: seq<Action>)
    requires |cfgs| == |s.spools| == |leftovers| && ValidRun(cfgs, leftovers, s, actions)
    requires AccountedThroughout(cfgs, leftovers, s, actions)
    ensures AllAccounted(Run(cfgs, leftovers, s, actions), leftovers)
    decreases |actions|
  {
    hide Step, Enabled, AllAccounted;
    if actions != [] {
      AccountedAtTheEnd(cfgs, leftovers, Step(cfgs, s, actions[0]), actions[1..]);
    }
  }

  // A condition on the clock alone: no name of a leftover is used again.

  /** The file the event creates does not take the name of a leftover. */
  ghost predicate NameIsNew(cfg: Spool.Config, s: Spool.State, e: Spool.Event, leftover: Directory)
    requires Spool.Enabled(s, e)
  {
    Stored(cfg, s, e).Some? ==> Stored(cfg, s, e).value.name !in Names(leftover)
  }

  /** No event of the run reuses the name of a leftover. Sequence numbers keep the names of one run apart. */
  ghost predicate NamesAreNew(cfgs: seq<Spool.Config>, leftovers: seq<Directory>, s: State, actions: seq<Action>)
    requires |cfgs| == |s.spools| == |leftovers| && ValidRun(cfgs, leftovers, s, actions)
    decreases |actions|
  {
    actions == [] ||
    ((actions[0].OnSpool? ==>
        NameIsNew(cfgs[actions[0].i], s.spools[actions[0].i], actions[0].event, leftovers[actions[0].i]))
     && NamesAreNew(cfgs, leftovers, Step(cfgs, s, actions[0]), actions[1..]))
  }

  ghost predicate Used(s: Spool.State, leftover: Directory, name: string) {
    name in Names(leftover) || exists ts, k :: 0 <= k < s.batchesSealed && name == BatchName(ts, k)
  }

  /** Every name is used once: what is on disk under the name of a batch is that batch. */
  ghost predicate SpoolOk(s: Spool.State, leftover: Directory) {
    && (forall e | e in s.disk :: Used(s, leftover, e.name))
    && (forall b | Owed(s, leftover, b) :: Used(s, leftover, b.name))
    && (forall b, e | Owed(s, leftover, b) && e in s.disk && e.name == b.name :: e == b)
  }

  /** What the shipper holds is the content of the batch it is about to unlink. */
  ghost predicate ShippingOk(s: State, leftovers: seq<Directory>)
    requires |leftovers| == |s.spools|
  {
    s.shipping.Loaded? || s.shipping.Answered? ==>
      var (pick, lines) := (s.shipping.pick, s.shipping.lines);
      pick.dir < |s.spools|
      && HoldsContent(s.spools[pick.dir], leftovers[pick.dir], pick.name, lines)
      && (s.shipping.Answered? ==> Ack(pick.dir, pick.name, lines) in s.acks)
  }

  ghost predicate HoldsContent(s: Spool.State, leftover: Directory, name: string, lines: seq<Line>) {
    Used(s, leftover, name) && forall b | Owed(s, leftover, b) && b.name == name :: b.value.lines == lines
  }

  ghost predicate Inv(s: State, leftovers: seq<Directory>)
    requires |leftovers| == |s.spools|
  {
    (forall i | 0 <= i < |s.spools| :: SpoolOk(s.spools[i], leftovers[i])) && ShippingOk(s, leftovers)
  }

  /** The name of a file that is created: a sequence number not used before. */
  lemma StoredName(cfg: Spool.Config, s: Spool.State, e: Spool.Event)
    requires Spool.Enabled(s, e) && Stored(cfg, s, e).Some?
    ensures exists ts :: Stored(cfg, s, e).value.name == BatchName(ts, s.batchesSealed)
  {
    hide BatchName, Spool.Bytes;
    match e
    case Receive(_, ts, _, _) => assert Stored(cfg, s, e).value.name == BatchName(ts, s.batchesSealed);
    case Timeout(ts, _, _) => assert Stored(cfg, s, e).value.name == BatchName(ts, s.batchesSealed);
    case Disconnected(ts, _) => assert Stored(cfg, s, e).value.name == BatchName(ts, s.batchesSealed);
  }

  lemma FreshNameIsUnused(cfg: Spool.Config, s: Spool.State, e: Spool.Event, leftover: Directory)
    requires Spool.Enabled(s, e) && Stored(cfg, s, e).Some? && NameIsNew(cfg, s, e, leftover)
    ensures !Used(s, leftover, Stored(cfg, s, e).value.name)
  {
    StoredName(cfg, s, e);
    hide Stored, BatchName;
    var name := Stored(cfg, s, e).value.name;
    var ts :| name == BatchName(ts, s.batchesSealed);
    forall ts', k | 0 <= k < s.batchesSealed
      ensures name != BatchName(ts', k)
    {
      if name == BatchName(ts', k) {
        NamesAreDistinct(ts, s.batchesSealed, ts', k);
      }
    }
  }

  lemma UsedStaysUsed(s: Spool.State, s': Spool.State, leftover: Directory)
    requires s.batchesSealed <= s'.batchesSealed
    ensures forall name | Used(s, leftover, name) :: Used(s', leftover, name)
  {
    hide BatchName;
  }

  lemma StoredNameIsUsed(cfg: Spool.Config, s: Spool.State, e: Spool.Event, s': Spool.State, leftover: Directory)
    requires Spool.Enabled(s, e) && Stored(cfg, s, e).Some? && s.batchesSealed < s'.batchesSealed
    ensures Used(s', leftover, Stored(cfg, s, e).value.name)
  {
    StoredName(cfg, s, e);
    hide Stored, BatchName;
  }

  /** An event whose file gets a new name keeps the names of its spool apart. */
  lemma WriterStepKeeps(cfg: Spool.Config, s: Spool.State, leftover: Directory, e: Spool.Event)
    requires SpoolOk(s, leftover) && Spool.Enabled(s, e) && NameIsNew(cfg, s, e, leftover)
    ensures SpoolOk(Spool.Step(cfg, s, e), leftover)
    ensures forall name, lines | HoldsContent(s, leftover, name, lines) ::
      HoldsContent(Spool.Step(cfg, s, e), leftover, name, lines)
  {
    EventHasEffect(cfg, s, e);
    var (s', stored) := (Spool.Step(cfg, s, e), Stored(cfg, s, e));
    if stored.Some? {
      FreshNameIsUnused(cfg, s, e, leftover);
      StoredNameIsUsed(cfg, s, e, s', leftover);
    }
    UsedStaysUsed(s, s', leftover);
    hide Used, Stored, Spool.Step, NameIsNew, Spool.Enabled;
    EffectKeeps(s, s', leftover, stored);
  }

  lemma EffectKeeps(s: Spool.State, s': Spool.State, leftover: Directory, stored: Option<Named<File>>)
    requires SpoolOk(s, leftover) && Effect(s, s', stored)
    requires stored.Some? ==> !Used(s, leftover, stored.value.name) && Used(s', leftover, stored.value.name)
    requires forall name | Used(s, leftover, name) :: Used(s', leftover, name)
    ensures SpoolOk(s', leftover)
    ensures forall name, lines | HoldsContent(s, leftover, name, lines) :: HoldsContent(s', leftover, name, lines)
  {
    hide Used;
    assert forall b | Owed(s', leftover, b) :: Owed(s, leftover, b) || (stored.Some? && b == stored.value);
  }

  lemma StepKeeps(cfgs: seq<Spool.Config>, leftovers: seq<Directory>, s: State, a: Action)
    requires |cfgs| == |s.spools| == |leftovers| && Inv(s, leftovers) && Enabled(s, a)
    requires a.OnSpool? ==> NameIsNew(cfgs[a.i], s.spools[a.i], a.event, leftovers[a.i])
    ensures Inv(Step(cfgs, s, a), leftovers) && LosesNothing(cfgs, leftovers, s, a)
  {
    hide Used, Spool.Step, Stored, NameIsNew, Spool.Enabled;
    match a
    case OnSpool(i, e) =>
      WriterStepKeeps(cfgs[i], s.spools[i], leftovers[i], e);
      hide SpoolOk, HoldsContent;
      OverwritesNothing(cfgs[i], s.spools[i], leftovers[i], e);
    case Unlink(ok) =>
      var d := s.shipping.pick.dir;
      RemoveKeeps(s.spools[d], leftovers[d], s.shipping.pick.name);
      UnlinksTheAcknowledged(cfgs, leftovers, s, ok);
      hide SpoolOk, HoldsContent;
    case _ =>
  }

  lemma OverwritesNothing(cfg: Spool.Config, s: Spool.State, leftover: Directory, e: Spool.Event)
    requires SpoolOk(s, leftover) && Spool.Enabled(s, e) && NameIsNew(cfg, s, e, leftover)
    ensures forall b | Owed(s, leftover, b) :: !(Stored(cfg, s, e).Some? && Stored(cfg, s, e).value.name == b.name)
  {
    if Stored(cfg, s, e).Some? {
      FreshNameIsUnused(cfg, s, e, leftover);
    }
    hide Used, Stored;
  }

  lemma RemoveKeeps(s: Spool.State, leftover: Directory, name: string)
    requires SpoolOk(s, leftover)
    ensures SpoolOk(s.(disk := Spool.Remove(name, s.disk)), leftover)
  {
    UsedStaysUsed(s, s.(disk := Spool.Remove(name, s.disk)), leftover);
    hide Used;
  }

  lemma UnlinksTheAcknowledged(cfgs: seq<Spool.Config>, leftovers: seq<Directory>, s: State, ok: bool)
    requires |cfgs| == |s.spools| == |leftovers| && ShippingOk(s, leftovers) && Enabled(s, Unlink(ok))
    ensures LosesNothing(cfgs, leftovers, s, Unlink(ok))
  {
    hide Used;
  }

  lemma {:induction false} RunKeeps(cfgs: seq<Spool.Config>, leftovers: seq<Directory>, s: State, actions: seq<Action>)
    requires |cfgs| == |s.spools| == |leftovers| && ValidRun(cfgs, leftovers, s, actions)
    requires NamesAreNew(cfgs, leftovers, s, actions) && Inv(s, leftovers)
    ensures Inv(Run(cfgs, leftovers, s, actions), leftovers) && NoStepLoses(cfgs, leftovers, s, actions)
    decreases |actions|
  {
    hide Inv, Step, Enabled, NameIsNew, LosesNothing;
    if actions != [] {
      StepKeeps(cfgs, leftovers, s, actions[0]);
      RunKeeps(cfgs, leftovers, Step(cfgs, s, actions[0]), actions[1..]);
    }
  }

  ghost predicate SpoolsKept(cfgs: seq<Spool.Config>, s: State)
    requires |cfgs| == |s.spools|
  {
    forall i | 0 <= i < |s.spools| :: Spool.Inv(cfgs[i], s.spools[i])
  }

  lemma DiskIsNoAccount(cfg: Spool.Config, s: Spool.State, disk: Directory)
    requires Spool.Inv(cfg, s)
    ensures Spool.Inv(cfg, s.(disk := disk))
  {
    assert Spool.Held(s.(disk := disk)) == Spool.Held(s);
  }

  /** The shipper touches nothing of a spool but its directory. */
  lemma StepKeepsSpools(cfgs: seq<Spool.Config>, s: State, a: Action)
    requires |cfgs| == |s.spools| && Enabled(s, a) && SpoolsKept(cfgs, s)
    ensures SpoolsKept(cfgs, Step(cfgs, s, a))
  {
    hide Spool.Step, Spool.Inv, Spool.Enabled;
    if a.OnSpool? {
      Spool.StepKeeps(cfgs[a.i], s.spools[a.i], a.event);
    } else if a.Unlink? && a.ok {
      var d := s.shipping.pick.dir;
      DiskIsNoAccount(cfgs[d], s.spools[d], Step(cfgs, s, a).spools[d].disk);
    }
  }

  lemma {:induction false} RunKeepsSpools(cfgs: seq<Spool.Config>, leftovers: seq<Directory>, s: State,
                                          actions: seq<Action>)
    requires |cfgs| == |s.spools| == |leftovers| && ValidRun(cfgs, leftovers, s, actions) && SpoolsKept(cfgs, s)
    ensures SpoolsKept(cfgs, Run(cfgs, leftovers, s, actions))
    decreases |actions|
  {
    hide SpoolsKept, Step, Enabled;
    if actions != [] {
      StepKeepsSpools(cfgs, s, actions[0]);
      RunKeepsSpools(cfgs, leftovers, Step(cfgs, s, actions[0]), actions[1..]);
    }
  }

  /**
   Over every interleaving in which no seal reuses the name of a leftover no step loses a batch: each batch of this
   run and of earlier ones is at every moment on disk, acknowledged with its full content or evicted; and in a
   spool without failures each accepted line is in a batch of this run, in the active file or in the channel.
   */
  lemma NothingIsLost(cfgs: seq<Spool.Config>, leftovers: seq<Directory>, actions: seq<Action>)
    requires |cfgs| == |leftovers| && forall d | d in leftovers :: Spool.DirectoryOk(d)
    requires ValidRun(cfgs, leftovers, Initial(leftovers), actions)
    requires NamesAreNew(cfgs, leftovers, Initial(leftovers), actions)
    ensures NoStepLoses(cfgs, leftovers, Initial(leftovers), actions)
    ensures AccountedThroughout(cfgs, leftovers, Initial(leftovers), actions)
    ensures var s := Run(cfgs, leftovers, Initial(leftovers), actions);
      && AllAccounted(s, leftovers)
      && forall i | 0 <= i < |s.spools| :: s.spools[i].faults == 0 ==> Spool.Held(s.spools[i]) == s.spools[i].accepted
  {
    var s0 := Initial(leftovers);
    forall i | 0 <= i < |leftovers|
      ensures SpoolOk(s0.spools[i], leftovers[i]) && Spool.Inv(cfgs[i], s0.spools[i])
    {
      assert leftovers[i] in leftovers;
      assert Spool.Held(s0.spools[i]) == [];
      Spool.SortedIsDistinct(leftovers[i]);
    }
    hide SpoolOk;
    RunKeeps(cfgs, leftovers, s0, actions);
    AccountedExactlyWhen(cfgs, leftovers, actions);
    AccountedAtTheEnd(cfgs, leftovers, s0, actions);
    RunKeepsSpools(cfgs, leftovers, s0, actions);
  }

  /** What takes a batch off the disk, under new names: the cap, or an unlink after a 2xx for its content. */
  lemma WhatTakesABatch(cfgs: seq<Spool.Config>, leftovers: seq<Directory>, s: State, a: Action, i: nat, b: Named<File>)
    requires |cfgs| == |s.spools| == |leftovers| && Inv(s, leftovers) && Enabled(s, a)
    requires a.OnSpool? ==> NameIsNew(cfgs[a.i], s.spools[a.i], a.event, leftovers[a.i])
    requires i < |s.spools| && Owed(s.spools[i], leftovers[i], b)
    requires b in s.spools[i].disk && b !in Step(cfgs, s, a).spools[i].disk
    ensures (a.OnSpool? && a.i == i && b in Step(cfgs, s, a).spools[i].evicted)
         || (a.Unlink? && a.ok && s.shipping.pick == Shipper.Pick(i, b.name) && Ack(i, b.name, b.value.lines) in s.acks)
  {
    assert SpoolOk(s.spools[i], leftovers[i]);
    hide Spool.Step, Stored, Used;
    if a.OnSpool? && a.i == i {
      EventHasEffect(cfgs[i], s.spools[i], a.event);
      OverwritesNothing(cfgs[i], s.spools[i], leftovers[i], a.event);
    }
  }

  // Without that condition.

  const ONE_LINE_A_FILE := Spool.Config(1, 100, 10)

  /** The steps of the run below. */
  function OverwritingRun(name: string, first: Line, second: Line): seq<Action> {
    [Scan({0}, Some(Shipper.Pick(0, name))), Load(File([first], 1)), Accept,
     OnSpool(0, Spool.Start(true)), OnSpool(0, Spool.Submit(second)),
     OnSpool(0, Spool.Receive(true, 5, Spool.Done(1, {}), true)), Unlink(true)]
  }

  /**
   A restart within the second of a leftover `batch-5-0.zst`: the shipper sends the leftover, the writer
   seals its own batch 0 over it, and the unlink removes a batch nobody has acknowledged.
   */
  lemma RestartWithinASecondLosesABatch(first: Line, second: Line)
    requires first != [] && second != [] && first != second
    ensures var (cfgs, leftovers) := ([ONE_LINE_A_FILE], [[Named(BatchName(5, 0), File([first], 1))]]);
            var actions := OverwritingRun(BatchName(5, 0), first, second);
            && ValidRun(cfgs, leftovers, Initial(leftovers), actions)
            && var s := Run(cfgs, leftovers, Initial(leftovers), actions);
               exists b :: b in s.spools[0].sealed && !Accounted(s.spools[0], s.acks, 0, b)
  {
    var name := BatchName(5, 0);
    var (cfgs, leftovers) := ([ONE_LINE_A_FILE], [[Named(name, File([first], 1))]]);
    hide BatchName, Spool.Step, Step, Enabled;
    var (w0, w1, w2) := (Fresh(name, first), Started(name, first), Submitted(name, first, second));
    var w3 := Sealed(name, first, second);
    ShipperSends(name, first, second);
    WriterSeals(name, first, second);
    assert Initial(leftovers).spools == [w0];
    RunOfSeven(cfgs, leftovers, Initial(leftovers), Chosen(name, w0), Read(name, first, w0), Sent(name, first, w0),
               Sent(name, first, w1), Sent(name, first, w2), Sent(name, first, w3), OverwritingRun(name, first, second));
    UnlinkLoses(name, first, second);
  }

  /** The writer's part of that run alone. */
  function RestartedWriter(second: Line): seq<Action> {
    [OnSpool(0, Spool.Start(true)), OnSpool(0, Spool.Submit(second)),
     OnSpool(0, Spool.Receive(true, 5, Spool.Done(1, {}), true))]
  }

  /** Without any shipper: the first seal after the restart replaces a leftover that was never sent. */
  lemma RestartOverwritesALeftover(first: Line, second: Line)
    requires first != [] && second != [] && first != second
    ensures var leftover := Named(BatchName(5, 0), File([first], 1));
            var (cfgs, leftovers, actions) := ([ONE_LINE_A_FILE], [[leftover]], RestartedWriter(second));
            && ValidRun(cfgs, leftovers, Initial(leftovers), actions)
            && var s := Run(cfgs, leftovers, Initial(leftovers), actions);
               Owed(s.spools[0], leftovers[0], leftover) && !Accounted(s.spools[0], s.acks, 0, leftover)
  {
    var name := BatchName(5, 0);
    var (cfgs, leftovers, a) := ([ONE_LINE_A_FILE], [[Named(name, File([first], 1))]], RestartedWriter(second));
    WriterSteps(name, first, second);
    SealsOver(Submitted(name, first, second), name, first, second);
    var s0 := Initial(leftovers);
    assert s0.spools == [Fresh(name, first)];
    var s1 := State([Started(name, first)], Idle, []);
    var s2 := State([Submitted(name, first, second)], Idle, []);
    var s3 := State([Sealed(name, first, second)], Idle, []);
    hide BatchName, Spool.Step, Spool.Enabled;
    assert Step(cfgs, s0, a[0]) == s1 && Step(cfgs, s1, a[1]) == s2 && Step(cfgs, s2, a[2]) == s3;
    assert [first] != [second];
    hide Enabled, Step;
    assert a[3..] == [] && a[0..] == a;
    OneMore(cfgs, leftovers, s2, a, 2);
    OneMore(cfgs, leftovers, s1, a, 1);
    OneMore(cfgs, leftovers, s0, a, 0);
  }

  lemma WriterSteps(name: string, first: Line, second: Line)
    requires second != []
    ensures var (w, a) := (Fresh(name, first), RestartedWriter(second));
      && Spool.Enabled(w, a[0].event) && Spool.Step(ONE_LINE_A_FILE, w, a[0].event) == Started(name, first)
      && Spool.Enabled(Started(name, first), a[1].event)
      && Spool.Step(ONE_LINE_A_FILE, Started(name, first), a[1].event) == Submitted(name, first, second)
      && Spool.Enabled(Submitted(name, first, second), a[2].event)
      && Spool.Step(ONE_LINE_A_FILE, Submitted(name, first, second), a[2].event) == Sealed(name, first, second)
  {
  }

  // The states of those runs: the shipper's, around those of the writer.

  ghost function Chosen(name: string, w: Spool.State): State {
    State([w], Picked(Shipper.Pick(0, name)), [])
  }

  ghost function Read(name: string, first: Line, w: Spool.State): State {
    State([w], Loaded(Shipper.Pick(0, name), [first]), [])
  }

  ghost function Sent(name: string, first: Line, w: Spool.State): State {
    State([w], Answered(Shipper.Pick(0, name), [first]), [Ack(0, name, [first])])
  }

  ghost function Fresh(name: string, first: Line): Spool.State {
    Spool.Initial([Named(name, File([first], 1))])
  }

  ghost function Started(name: string, first: Line): Spool.State {
    Fresh(name, first).(phase := Spool.Running, active := Some([]))
  }

  ghost function Submitted(name: string, first: Line, second: Line): Spool.State {
    Started(name, first).(submissions := 1, queue := [second], accepted := [second])
  }

  ghost function Sealed(name: string, first: Line, second: Line): Spool.State {
    Spool.Step(ONE_LINE_A_FILE, Submitted(name, first, second), Spool.Receive(true, 5, Spool.Done(1, {}), true))
  }

  lemma ShipperSends(name: string, first: Line, second: Line)
    requires name == BatchName(5, 0)
    ensures var (cfgs, a, w0) := ([ONE_LINE_A_FILE], OverwritingRun(name, first, second), Fresh(name, first));
            var s0 := Initial([[Named(name, File([first], 1))]]);
            && Enabled(s0, a[0]) && Step(cfgs, s0, a[0]) == Chosen(name, w0)
            && Enabled(Chosen(name, w0), a[1]) && Step(cfgs, Chosen(name, w0), a[1]) == Read(name, first, w0)
            && Enabled(Read(name, first, w0), a[2]) && Step(cfgs, Read(name, first, w0), a[2]) == Sent(name, first, w0)
  {
    hide BatchName, Spool.Step;
    var s0 := Initial([[Named(name, File([first], 1))]]);
    LeftoverIsOldest(s0, name, File([first], 1));
    assert s0.spools == [Fresh(name, first)];
  }

  lemma WriterSeals(name: string, first: Line, second: Line)
    requires second != []
    ensures var (cfgs, a) := ([ONE_LINE_A_FILE], OverwritingRun(name, first, second));
            var (s3, s4) := (Sent(name, first, Fresh(name, first)), Sent(name, first, Started(name, first)));
            var s5 := Sent(name, first, Submitted(name, first, second));
            var s6 := Sent(name, first, Sealed(name, first, second));
            && Enabled(s3, a[3]) && Step(cfgs, s3, a[3]) == s4
            && Enabled(s4, a[4]) && Step(cfgs, s4, a[4]) == s5
            && Enabled(s5, a[5]) && Step(cfgs, s5, a[5]) == s6
            && Enabled(s6, a[6])
  {
    var w := Fresh(name, first);
    assert Spool.Step(ONE_LINE_A_FILE, w, Spool.Start(true)) == Started(name, first);
    assert Spool.Step(ONE_LINE_A_FILE, Started(name, first), Spool.Submit(second)) == Submitted(name, first, second);
  }

  lemma UnlinkLoses(name: string, first: Line, second: Line)
    requires name == BatchName(5, 0) && first != [] && second != [] && first != second
    ensures var s6 := Sent(name, first, Sealed(name, first, second));
            Enabled(s6, Unlink(true))
            && var last := Step([ONE_LINE_A_FILE], s6, Unlink(true));
               exists b :: b in last.spools[0].sealed && !Accounted(last.spools[0], last.acks, 0, b)
  {
    hide BatchName, Spool.Step;
    SealsOver(Submitted(name, first, second), name, first, second);
    var s6 := Sent(name, first, Sealed(name, first, second));
    var b := Named(name, File([second], 1));
    var last := Step([ONE_LINE_A_FILE], s6, Unlink(true));
    assert b in last.spools[0].sealed;
    assert [first] != [second];
    assert !Accounted(last.spools[0], last.acks, 0, b);
  }

  lemma RunOfSeven(cfgs: seq<Spool.Config>, leftovers: seq<Directory>, s0: State, s1: State, s2: State, s3: State,
                   s4: State, s5: State, s6: State, a: seq<Action>)
    requires |a| == 7 && |cfgs| == |leftovers| == |s0.spools|
    requires Enabled(s0, a[0]) && s1 == Step(cfgs, s0, a[0])
    requires Enabled(s1, a[1]) && s2 == Step(cfgs, s1, a[1])
    requires Enabled(s2, a[2]) && s3 == Step(cfgs, s2, a[2])
    requires Enabled(s3, a[3]) && s4 == Step(cfgs, s3, a[3])
    requires Enabled(s4, a[4]) && s5 == Step(cfgs, s4, a[4])
    requires Enabled(s5, a[5]) && s6 == Step(cfgs, s5, a[5])
    requires Enabled(s6, a[6])
    ensures ValidRun(cfgs, leftovers, s0, a) && Run(cfgs, leftovers, s0, a) == Step(cfgs, s6, a[6])
  {
    hide Enabled, Step;
    var s7 := Step(cfgs, s6, a[6]);
    assert a[7..] == [];
    assert ValidRun(cfgs, leftovers, s7, a[7..]) && Run(cfgs, leftovers, s7, a[7..]) == s7;
    OneMore(cfgs, leftovers, s6, a, 6);
    OneMore(cfgs, leftovers, s5, a, 5);
    OneMore(cfgs, leftovers, s4, a, 4);
    OneMore(cfgs, leftovers, s3, a, 3);
    OneMore(cfgs, leftovers, s2, a, 2);
    OneMore(cfgs, leftovers, s1, a, 1);
    OneMore(cfgs, leftovers, s0, a, 0);
    assert a[0..] == a;
  }

  lemma OneMore(cfgs: seq<Spool.Config>, leftovers: seq<Directory>, s: State, a: seq<Action>, k: nat)
    requires k < |a| && |cfgs| == |leftovers| == |s.spools| && Enabled(s, a[k])
    requires ValidRun(cfgs, leftovers, Step(cfgs, s, a[k]), a[k + 1..])
    ensures ValidRun(cfgs, leftovers, s, a[k..])
    ensures Run(cfgs, leftovers, s, a[k..]) == Run(cfgs, leftovers, Step(cfgs, s, a[k]), a[k + 1..])
  {
    assert a[k..][0] == a[k] && a[k..][1..] == a[k + 1..];
  }

  lemma LeftoverIsOldest(s: State, name: string, file: File)
    requires |s.spools| == 1 && s.spools[0].disk == [Named(name, file)] && name == BatchName(5, 0)
    ensures Shipper.IsOldest(Listings(s.spools, {0}), Some(Shipper.Pick(0, name)))
  {
    Spool.BatchNamesAreBatchNames(5, 0);
    assert NamesIn(s.spools[0].disk) == [name];
  }

  lemma SealsOver(s: Spool.State, name: string, first: Line, second: Line)
    requires name == BatchName(5, 0) && second != [] && s.phase == Spool.Running && s.batchesSealed == 0
    requires s.active == Some([]) && s.queue == [second] && s.disk == [Named(name, File([first], 1))]
    requires s.sealed == [] && s.evicted == []
    ensures var s' := Spool.Step(ONE_LINE_A_FILE, s, Spool.Receive(true, 5, Spool.Done(1, {}), true));
            var b := Named(name, File([second], 1));
            s'.disk == [b] && s'.sealed == [b] && s'.evicted == []
  {
    hide BatchName;
    var lines := [] + [second];
    assert Spool.Bytes(lines) >= 1 by {
      assert lines[..0] == [];
    }
    var file := File([second], 1);
    assert Spool.Remove(name, s.disk) == [] by {
      assert s.disk[1..] == [];
    }
    assert Spool.Put(name, file, s.disk) == [Named(name, file)];
    var full := [Named(name, file)];
    assert TotalSize(full) == 1 by {
      assert full[1..] == [];
    }
    assert AfterCap(full, 100, {}) == full;
    assert Spool.Gone(full, full) == [] by {
      assert full[1..] == [];
    }
  }
}
