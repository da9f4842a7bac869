/**
 Polling the service control manager: the snapshot that reuses what it queried before, the difference between
 two snapshots, and the loop that runs them (src/polling/services.rs).
 */
module Services {
  import opened Options

  datatype Config = Config(binaryPath: string, startType: nat, serviceType: nat, account: string)

  datatype Service = Service(displayName: string, config: Config, running: bool)

  type Snapshot = map<string, Service>

  // Taking a snapshot.

  datatype Entry = Entry(name: string, displayName: string, running: bool)

  /** One cycle: the enumeration fails, or lists services and answers queries, `None` for one that cannot be queried. */
  datatype Cycle = Failed | Seen(entries: seq<Entry>, query: string -> Option<Config>)

  const FULL_RESCAN_EVERY: nat := 10

  const NO_CONFIG := Config("", 0, 0, "")

  /** What a query comes to in the snapshot. */
  function Outcome(query: string -> Option<Config>, name: string): Config {
    match query(name)
    case None => NO_CONFIG
    case Some(c) => c
  }

  /** The config of the last snapshot will do. */
  predicate Reusable(prev: Snapshot, full: bool, e: Entry) {
    !full && e.name in prev && prev[e.name].running == e.running && prev[e.name].config.binaryPath != ""
  }

  function Observed(prev: Snapshot, full: bool, query: string -> Option<Config>, e: Entry): Service {
    Service(e.displayName, if Reusable(prev, full, e) then prev[e.name].config else Outcome(query, e.name), e.running)
  }

  /** The last entry of a name counts; an entry without one does not. */
  function Enumerated(prev: Snapshot, full: bool, entries: seq<Entry>, query: string -> Option<Config>): Snapshot {
    if entries == [] then map[]
    else
      var (front, e) := (entries[..|entries| - 1], entries[|entries| - 1]);
      var rest := Enumerated(prev, full, front, query);
      if e.name == "" then rest else rest[e.name := Observed(prev, full, query, e)]
  }

  method EnumerateServices(prev: Snapshot, full: bool, entries: seq<Entry>, query: string -> Option<Config>)
    returns (snapshot: Snapshot)
    ensures snapshot == Enumerated(prev, full, entries, query)
  {
    snapshot := map[];
    for i := 0 to |entries|
      invariant snapshot == Enumerated(prev, full, entries[..i], query)
    {
      var e := entries[i];
      assert entries[..i + 1][..i] == entries[..i];
      if e.name == "" {
        continue;
      }
      var config := NO_CONFIG;
      if !full && e.name in prev && prev[e.name].running == e.running && prev[e.name].config.binaryPath != "" {
        config := prev[e.name].config;
      } else {
        var answer := query(e.name);
        if answer.Some? {
          config := answer.value;
        }
      }
      snapshot := snapshot[e.name := Service(e.displayName, config, e.running)];
    }
    assert entries[..|entries|] == entries;
  }

  /** The entry of a name that counts. */
  predicate IsLast(entries: seq<Entry>, name: string, i: nat) {
    i < |entries| && entries[i].name == name && forall j | i < j < |entries| :: entries[j].name != name
  }

  /** Exactly the listed services, each with the flag and display name it is listed with. */
  lemma {:induction false} SnapshotIsCurrent(prev: Snapshot, full: bool, entries: seq<Entry>,
                                             query: string -> Option<Config>, name: string)
    requires name != ""
    ensures var s := Enumerated(prev, full, entries, query);
      && (name in s <==> exists i: nat :: IsLast(entries, name, i))
      && (forall i: nat | IsLast(entries, name, i) :: s[name] == Observed(prev, full, query, entries[i]))
  {
    hide Observed;
    if entries != [] {
      var n := |entries| - 1;
      var front := entries[..n];
      SnapshotIsCurrent(prev, full, front, query, name);
      if entries[n].name == name {
        assert IsLast(entries, name, n);
        assert forall i: nat | IsLast(entries, name, i) :: i == n;
      } else {
        forall i: nat
          ensures IsLast(front, name, i) <==> IsLast(entries, name, i)
          ensures i < n ==> entries[i] == front[i]
        {
        }
      }
    }
  }

  lemma {:induction false} NoServiceWithoutName(prev: Snapshot, full: bool, entries: seq<Entry>,
                                                query: string -> Option<Config>)
    ensures "" !in Enumerated(prev, full, entries, query)
  {
    hide Observed;
    if entries != [] {
      NoServiceWithoutName(prev, full, entries[..|entries| - 1], query);
    }
  }

  /**
   The config of a listed service: the answer of this cycle if everything is rescanned, the service is new, it has
   started or stopped, or it was held without a path; the config it was held with otherwise.
   */
  lemma ConfigInCycle(prev: Snapshot, full: bool, entries: seq<Entry>, query: string -> Option<Config>, name: string, i: nat)
    requires name != "" && IsLast(entries, name, i)
    ensures var s := Enumerated(prev, full, entries, query);
      name in s &&
      if full || name !in prev || prev[name].running != entries[i].running || prev[name].config.binaryPath == ""
      then s[name].config == match query(name) case Some(c) => c case None => Config("", 0, 0, "")
      else s[name].config == prev[name].config
  {
    hide Enumerated;
    SnapshotIsCurrent(prev, full, entries, query, name);
  }

  // The difference between two snapshots.

  datatype Kind = Create | Modify | Start | Stop | Delete

  datatype DiffEntry = DiffEntry(kind: Kind, name: string)

  /** What there is to report about a service. */
  predicate IsReported(prev: Snapshot, next: Snapshot, d: DiffEntry) {
    var name := d.name;
    match d.kind
    case Create => name in next && name !in prev
    case Delete => name in prev && name !in next
    case Start => name in prev && name in next && !prev[name].running && next[name].running
    case Stop => name in prev && name in next && prev[name].running && !next[name].running
    case Modify =>
      name in prev && name in next
      && (prev[name].config != next[name].config || prev[name].displayName != next[name].displayName)
  }

  /** All of it, each once, in some order. */
  ghost predicate IsDiff(prev: Snapshot, next: Snapshot, diff: seq<DiffEntry>) {
    && (forall d :: d in diff <==> IsReported(prev, next, d))
    && (forall i, j | 0 <= i < j < |diff| :: diff[i] != diff[j])
  }

  /** A change of state goes before any other change of the service, and deletions go last. */
  predicate InOrder(diff: seq<DiffEntry>) {
    forall i, j | 0 <= i < j < |diff| ::
      (diff[i].name == diff[j].name ==> diff[j].kind == Modify) && (diff[i].kind == Delete ==> diff[j].kind == Delete)
  }

  lemma MoreInOrder(diff: seq<DiffEntry>, more: seq<DiffEntry>, name: string)
    requires InOrder(diff) && InOrder(more)
    requires (forall d | d in diff :: d.name != name) && (forall d | d in more :: d.name == name)
    requires (forall d | d in diff :: d.kind != Delete) || (forall d | d in more :: d.kind == Delete)
    ensures InOrder(diff + more)
  {
  }

  /** The entries for one service that both snapshots may hold. */
  function EntriesFor(prev: Snapshot, next: Snapshot, name: string): (r: seq<DiffEntry>)
    requires name in next
    ensures forall d :: d in r <==> d.name == name && IsReported(prev, next, d)
    ensures forall i, j | 0 <= i < j < |r| :: r[i] != r[j]
    ensures InOrder(r)
  {
    if name !in prev then [DiffEntry(Create, name)]
    else
      var (p, s) := (prev[name], next[name]);
      (if p.running != s.running then [DiffEntry(if s.running then Start else Stop, name)] else [])
      + (if p.config != s.config || p.displayName != s.displayName then [DiffEntry(Modify, name)] else [])
  }

  method ComputeDiff(prev: Snapshot, next: Snapshot) returns (out: seq<DiffEntry>)
    ensures IsDiff(prev, next, out) && InOrder(out)
  {
    hide InOrder;
    out := [];
    var left := next.Keys;
    NothingInOrder();
    while left != {}
      invariant left <= next.Keys && InOrder(out)
      invariant forall d :: d in out <==> IsReported(prev, next, d) && d.name in next && d.name !in left
      invariant forall i, j | 0 <= i < j < |out| :: out[i] != out[j]
      decreases |left|
    {
      var name :| name in left;
      left := left - {name};
      MoreInOrder(out, EntriesFor(prev, next, name), name);
      out := out + EntriesFor(prev, next, name);
    }
    left := prev.Keys;
    while left != {}
      invariant left <= prev.Keys && InOrder(out)
      invariant forall d :: d in out <==> IsReported(prev, next, d) && (d.name in next || d.name !in left)
      invariant forall i, j | 0 <= i < j < |out| :: out[i] != out[j]
      decreases |left|
    {
      var name :| name in left;
      left := left - {name};
      if name !in next {
        OneInOrder(DiffEntry(Delete, name));
        MoreInOrder(out, [DiffEntry(Delete, name)], name);
        out := out + [DiffEntry(Delete, name)];
      }
    }
  }

  lemma NothingInOrder()
    ensures InOrder([])
  {
  }

  lemma OneInOrder(d: DiffEntry)
    ensures InOrder([d])
  {
  }

  predicate SameAt(s: Snapshot, t: Snapshot, name: string) {
    (name in s <==> name in t) && (name in s ==> s[name] == t[name])
  }

  lemma SameEverywhere(s: Snapshot, t: Snapshot)
    requires forall name :: SameAt(s, t, name)
    ensures s == t
  {
    assert forall name | name in s :: SameAt(s, t, name);
    assert forall name | name in t :: SameAt(s, t, name);
  }

  /** The entry names the service. */
  predicate Touches(diff: seq<DiffEntry>, name: string) {
    exists i :: 0 <= i < |diff| && diff[i].name == name
  }

  lemma UntouchedIsUnchanged(prev: Snapshot, next: Snapshot, diff: seq<DiffEntry>, name: string)
    requires IsDiff(prev, next, diff) && !Touches(diff, name)
    ensures SameAt(prev, next, name)
  {
    assert !IsReported(prev, next, DiffEntry(Create, name)) && !IsReported(prev, next, DiffEntry(Delete, name));
    assert !IsReported(prev, next, DiffEntry(Start, name)) && !IsReported(prev, next, DiffEntry(Stop, name));
    assert !IsReported(prev, next, DiffEntry(Modify, name));
  }

  /** No news exactly if nothing changed. */
  lemma EmptyDiffMeansEqual(prev: Snapshot, next: Snapshot, diff: seq<DiffEntry>)
    requires IsDiff(prev, next, diff)
    ensures diff == [] <==> prev == next
  {
    if diff == [] {
      forall name
        ensures SameAt(prev, next, name)
      {
        UntouchedIsUnchanged(prev, next, diff, name);
      }
      SameEverywhere(prev, next);
    } else {
      assert diff[0] in diff;
    }
  }

  // What goes out.

  datatype Previous = Previous(config: Config, running: bool)

  datatype Payload = Payload(name: string, displayName: string, config: Config, startTypeLabel: string, running: bool,
                             previous: Option<Previous>)

  datatype Report = Report(kind: Kind, payload: Payload)

  function StartTypeLabel(t: nat): string {
    if t == 0 then "boot" else if t == 1 then "system" else if t == 2 then "auto"
    else if t == 3 then "manual" else if t == 4 then "disabled" else "unknown"
  }

  predicate IsLabelOf(t: nat, name: string) {
    name == if t < 5 then ["boot", "system", "auto", "manual", "disabled"][t] else "unknown"
  }

  function BuildPayload(name: string, s: Service, prev: Option<Service>): Payload {
    Payload(name, s.displayName, s.config, StartTypeLabel(s.config.startType), s.running,
            if prev.Some? then Some(Previous(prev.value.config, prev.value.running)) else None)
  }

  /** The report of one entry, about the service as it is now or, if it is gone, as it was. */
  predicate IsReportOf(prev: Snapshot, next: Snapshot, d: DiffEntry, r: Report) {
    && r.kind == d.kind && r.payload.name == d.name
    && IsLabelOf(r.payload.config.startType, r.payload.startTypeLabel)
    && (d.name in next ==> ServiceOf(r.payload) == next[d.name])
    && (d.name !in next && d.name in prev ==> ServiceOf(r.payload) == prev[d.name])
    && r.payload.previous == if d.kind == Delete || d.name !in prev then None
                             else Some(Previous(prev[d.name].config, prev[d.name].running))
  }

  /** What a reader of the payload knows about the service. */
  function ServiceOf(p: Payload): Service {
    Service(p.displayName, p.config, p.running)
  }

  ghost predicate AreReportsOf(prev: Snapshot, next: Snapshot, diff: seq<DiffEntry>, reports: seq<Report>) {
    |reports| == |diff| && forall i | 0 <= i < |diff| :: IsReportOf(prev, next, diff[i], reports[i])
  }

  ghost predicate Reports(prev: Snapshot, next: Snapshot, reports: seq<Report>) {
    exists diff :: IsDiff(prev, next, diff) && InOrder(diff) && AreReportsOf(prev, next, diff, reports)
  }

  method DiffAndEmit(prev: Snapshot, next: Snapshot) returns (reports: seq<Report>)
    ensures Reports(prev, next, reports)
  {
    var diff := ComputeDiff(prev, next);
    reports := [];
    for i := 0 to |diff|
      invariant |reports| == i && forall j | 0 <= j < i :: IsReportOf(prev, next, diff[j], reports[j])
    {
      var d := diff[i];
      assert IsReported(prev, next, d);
      var service := if d.name in next then next[d.name] else prev[d.name];
      var was := if d.kind == Delete || d.name !in prev then None else Some(prev[d.name]);
      reports := reports + [Report(d.kind, BuildPayload(d.name, service, was))];
    }
  }

  // Replaying what went out.

  function Apply(s: Snapshot, r: Report): Snapshot {
    if r.kind == Delete then s - {r.payload.name} else s[r.payload.name := ServiceOf(r.payload)]
  }

  function Replay(s: Snapshot, reports: seq<Report>): Snapshot
    decreases |reports|
  {
    if reports == [] then s else Apply(Replay(s, reports[..|reports| - 1]), reports[|reports| - 1])
  }

  /** Some of the reports have been applied: the services they name are as they are now, the others as they were. */
  lemma {:induction false} PartlyReplayed(prev: Snapshot, next: Snapshot, diff: seq<DiffEntry>,
                                          reports: seq<Report>, n: nat, name: string)
    requires IsDiff(prev, next, diff) && AreReportsOf(prev, next, diff, reports) && n <= |diff|
    ensures SameAt(Replay(prev, reports[..n]), if Touches(diff[..n], name) then next else prev, name)
    decreases n
  {
    hide IsDiff;
    if n > 0 {
      PartlyReplayed(prev, next, diff, reports, n - 1, name);
      assert reports[..n][..n - 1] == reports[..n - 1];
      ReportIsTrue(prev, next, diff, n - 1);
      TouchesOneMore(diff, n - 1, name);
      ApplyOne(prev, next, Replay(prev, reports[..n - 1]), diff[n - 1], reports[n - 1], name);
    }
  }

  lemma TouchesOneMore(diff: seq<DiffEntry>, n: nat, name: string)
    requires n < |diff|
    ensures Touches(diff[..n + 1], name) <==> Touches(diff[..n], name) || diff[n].name == name
  {
    if Touches(diff[..n], name) {
      var i :| 0 <= i < n && diff[..n][i].name == name;
      assert diff[..n + 1][i].name == name;
    }
    assert diff[..n + 1][n] == diff[n];
  }

  lemma ApplyOne(prev: Snapshot, next: Snapshot, s: Snapshot, d: DiffEntry, r: Report, name: string)
    requires IsReported(prev, next, d) && IsReportOf(prev, next, d, r)
    ensures if d.name == name then SameAt(Apply(s, r), next, name) else SameAt(Apply(s, r), s, name)
  {
  }

  lemma ReportIsTrue(prev: Snapshot, next: Snapshot, diff: seq<DiffEntry>, i: nat)
    requires IsDiff(prev, next, diff) && i < |diff|
    ensures IsReported(prev, next, diff[i])
  {
    assert diff[i] in diff;
  }

  /** Whoever applies the reports to the old snapshot, in the order they come, has the new one. */
  lemma ReplayRebuilds(prev: Snapshot, next: Snapshot, reports: seq<Report>)
    requires Reports(prev, next, reports)
    ensures Replay(prev, reports) == next
  {
    hide IsDiff, AreReportsOf;
    var diff :| IsDiff(prev, next, diff) && AreReportsOf(prev, next, diff, reports);
    ReplayAll(prev, next, diff, reports);
  }

  lemma ReplayAll(prev: Snapshot, next: Snapshot, diff: seq<DiffEntry>, reports: seq<Report>)
    requires IsDiff(prev, next, diff) && AreReportsOf(prev, next, diff, reports)
    ensures Replay(prev, reports) == next
  {
    assert reports[..|diff|] == reports && diff[..|diff|] == diff;
    hide IsDiff, AreReportsOf, Replay, Touches;
    forall name
      ensures SameAt(Replay(prev, reports), next, name)
    {
      PartlyReplayed(prev, next, diff, reports, |diff|, name);
      if !Touches(diff, name) {
        UntouchedIsUnchanged(prev, next, diff, name);
      }
    }
    SameEverywhere(Replay(prev, reports), next);
  }

  // Up and down.

  datatype Status = Absent | Up | Down

  function StatusIn(s: Snapshot, name: string): Status {
    if name !in s then Absent else if s[name].running then Up else Down
  }

  /** What a report about a service does to its status; `None` if it does not fit. */
  function Transition(status: Status, r: Report): Option<Status> {
    match r.kind
    case Create => if status.Absent? then Some(if r.payload.running then Up else Down) else None
    case Start => if status.Down? then Some(Up) else None
    case Stop => if status.Up? then Some(Down) else None
    case Delete => if status.Absent? then None else Some(Absent)
    case Modify => if status.Absent? then None else Some(status)
  }

  /** The reports about one service, taken together; those about others do not concern it. */
  function Trace(status: Status, reports: seq<Report>, name: string): Option<Status>
    decreases |reports|
  {
    if reports == [] then Some(status)
    else
      var front := Trace(status, reports[..|reports| - 1], name);
      var r := reports[|reports| - 1];
      if front.None? || r.payload.name != name then front else Transition(front.value, r)
  }

  /** The service has come, gone, started or stopped. */
  predicate Moves(diff: seq<DiffEntry>, name: string) {
    exists i :: 0 <= i < |diff| && diff[i].name == name && diff[i].kind != Modify
  }

  lemma MovesOneMore(diff: seq<DiffEntry>, n: nat, name: string)
    requires n < |diff|
    ensures Moves(diff[..n + 1], name) <==> Moves(diff[..n], name) || (diff[n].name == name && diff[n].kind != Modify)
  {
    if Moves(diff[..n], name) {
      var i :| 0 <= i < n && diff[..n][i].name == name && diff[..n][i].kind != Modify;
      assert diff[..n + 1][i] == diff[i];
    }
    assert diff[..n + 1][n] == diff[n];
  }

  /** One snapshot to the next holds one move of a service at most. */
  lemma MovesOnce(prev: Snapshot, next: Snapshot, diff: seq<DiffEntry>, n: nat, name: string)
    requires IsDiff(prev, next, diff) && n < |diff| && diff[n].name == name && diff[n].kind != Modify
    ensures !Moves(diff[..n], name)
  {
    if Moves(diff[..n], name) {
      var i :| 0 <= i < n && diff[..n][i].name == name && diff[..n][i].kind != Modify;
      ReportIsTrue(prev, next, diff, i);
      ReportIsTrue(prev, next, diff, n);
    }
  }

  lemma OneTransition(prev: Snapshot, next: Snapshot, d: DiffEntry, r: Report)
    requires IsReported(prev, next, d) && IsReportOf(prev, next, d, r)
    ensures r.payload.name == d.name
    ensures d.kind != Modify ==> Transition(StatusIn(prev, d.name), r) == Some(StatusIn(next, d.name))
    ensures d.kind == Modify ==>
      Transition(StatusIn(prev, d.name), r) == Some(StatusIn(prev, d.name))
      && Transition(StatusIn(next, d.name), r) == Some(StatusIn(next, d.name))
  {
  }

  lemma {:induction false} TracedSoFar(prev: Snapshot, next: Snapshot, diff: seq<DiffEntry>,
                                       reports: seq<Report>, n: nat, name: string)
    requires IsDiff(prev, next, diff) && AreReportsOf(prev, next, diff, reports) && n <= |diff|
    ensures Trace(StatusIn(prev, name), reports[..n], name)
         == Some(StatusIn(if Moves(diff[..n], name) then next else prev, name))
    decreases n
  {
    hide IsDiff, IsReported, IsReportOf, Transition, StatusIn;
    if n > 0 {
      TracedSoFar(prev, next, diff, reports, n - 1, name);
      assert reports[..n][..n - 1] == reports[..n - 1];
      ReportIsTrue(prev, next, diff, n - 1);
      MovesOneMore(diff, n - 1, name);
      OneTransition(prev, next, diff[n - 1], reports[n - 1]);
      if diff[n - 1].name == name && diff[n - 1].kind != Modify {
        MovesOnce(prev, next, diff, n - 1, name);
      }
      hide Moves;
    }
  }

  lemma UnmovedIsSame(prev: Snapshot, next: Snapshot, diff: seq<DiffEntry>, name: string)
    requires IsDiff(prev, next, diff) && !Moves(diff, name)
    ensures StatusIn(prev, name) == StatusIn(next, name)
  {
    assert !IsReported(prev, next, DiffEntry(Create, name)) && !IsReported(prev, next, DiffEntry(Delete, name));
    assert !IsReported(prev, next, DiffEntry(Start, name)) && !IsReported(prev, next, DiffEntry(Stop, name));
  }

  /** The reports take each service from the status it had to the one it has. */
  lemma ReportsTrace(prev: Snapshot, next: Snapshot, reports: seq<Report>, name: string)
    requires Reports(prev, next, reports)
    ensures Trace(StatusIn(prev, name), reports, name) == Some(StatusIn(next, name))
  {
    hide IsDiff, AreReportsOf, Trace;
    var diff :| IsDiff(prev, next, diff) && AreReportsOf(prev, next, diff, reports);
    TracedSoFar(prev, next, diff, reports, |diff|, name);
    SameLength(prev, next, diff, reports);
    if !Moves(diff, name) {
      UnmovedIsSame(prev, next, diff, name);
    }
  }

  lemma SameLength(prev: Snapshot, next: Snapshot, diff: seq<DiffEntry>, reports: seq<Report>)
    requires AreReportsOf(prev, next, diff, reports)
    ensures reports[..|diff|] == reports && diff[..|diff|] == diff
  {
  }

  // The loop.

  datatype Poller = Poller(prev: Snapshot, first: bool, cyclesSinceFull: nat)

  const START := Poller(map[], true, 0)

  function Next(p: Poller, c: Cycle): Poller {
    match c
    case Failed => p
    case Seen(entries, query) =>
      var full := p.cyclesSinceFull >= FULL_RESCAN_EVERY;
      Poller(Enumerated(p.prev, full, entries, query), false, if full then 0 else p.cyclesSinceFull + 1)
  }

  function After(cycles: seq<Cycle>): Poller
    decreases |cycles|
  {
    if cycles == [] then START else Next(After(cycles[..|cycles| - 1]), cycles[|cycles| - 1])
  }

  /** A failed cycle and a silent baseline report nothing, the others what changed. */
  ghost predicate CycleReports(p: Poller, c: Cycle, silentFirst: bool, reports: seq<Report>) {
    if c.Failed? || (p.first && silentFirst) then reports == [] else Reports(p.prev, Next(p, c).prev, reports)
  }

  /** What a run of cycles reports, cycle by cycle. */
  ghost predicate RunReports(cycles: seq<Cycle>, silentFirst: bool, out: seq<seq<Report>>)
    decreases |cycles|
  {
    var n := |cycles|;
    |out| == n
    && (n > 0 ==>
          RunReports(cycles[..n - 1], silentFirst, out[..n - 1])
          && CycleReports(After(cycles[..n - 1]), cycles[n - 1], silentFirst, out[n - 1]))
  }

  lemma AfterOneMore(cycles: seq<Cycle>, c: Cycle)
    ensures After(cycles + [c]) == Next(After(cycles), c)
  {
    assert (cycles + [c])[..|cycles|] == cycles;
  }

  lemma OneMoreReported(cycles: seq<Cycle>, c: Cycle, silentFirst: bool, out: seq<seq<Report>>, reports: seq<Report>)
    requires |out| == |cycles|
    ensures RunReports(cycles + [c], silentFirst, out + [reports])
       <==> RunReports(cycles, silentFirst, out) && CycleReports(After(cycles), c, silentFirst, reports)
  {
    hide After, CycleReports;
    assert (cycles + [c])[..|cycles|] == cycles && (out + [reports])[..|out|] == out;
  }

  method Run(cycles: seq<Cycle>, silentFirst: bool) returns (out: seq<seq<Report>>)
    ensures RunReports(cycles, silentFirst, out)
  {
    var prev: Snapshot, first, cyclesSinceFull := map[], true, 0;
    out := [];
    hide Enumerated, Reports, RunReports, After;
    NothingRun(silentFirst);
    assert cycles[..0] == [];
    for i := 0 to |cycles|
      invariant |out| == i && Poller(prev, first, cyclesSinceFull) == After(cycles[..i])
      invariant RunReports(cycles[..i], silentFirst, out)
    {
      ghost var p := Poller(prev, first, cyclesSinceFull);
      var fullRescan := cyclesSinceFull >= FULL_RESCAN_EVERY;
      var reports: seq<Report> := [];
      match cycles[i] {
        case Failed =>
        case Seen(entries, query) =>
          var snapshot := EnumerateServices(prev, fullRescan, entries, query);
          if fullRescan {
            cyclesSinceFull := 0;
          } else {
            cyclesSinceFull := cyclesSinceFull + 1;
          }
          if !(first && silentFirst) {
            reports := DiffAndEmit(prev, snapshot);
          }
          prev, first := snapshot, false;
      }
      assert Poller(prev, first, cyclesSinceFull) == Next(p, cycles[i]) && CycleReports(p, cycles[i], silentFirst, reports);
      assert cycles[..i + 1] == cycles[..i] + [cycles[i]];
      AfterOneMore(cycles[..i], cycles[i]);
      OneMoreReported(cycles[..i], cycles[i], silentFirst, out, reports);
      out := out + [reports];
    }
    assert cycles[..|cycles|] == cycles;
  }

  lemma NothingRun(silentFirst: bool)
    ensures After([]) == START && RunReports([], silentFirst, [])
  {
  }

  // What holds over whole runs.

  function Successes(cycles: seq<Cycle>): nat {
    if cycles == [] then 0
    else Successes(cycles[..|cycles| - 1]) + if cycles[|cycles| - 1].Seen? then 1 else 0
  }

  lemma {:induction false} SuccessesConcat(a: seq<Cycle>, b: seq<Cycle>)
    ensures Successes(a + b) == Successes(a) + Successes(b)
  {
    if b == [] {
      assert a + b == a;
    } else {
      var n := |b| - 1;
      assert (a + b)[..|a| + n] == a + b[..n];
      SuccessesConcat(a, b[..n]);
    }
  }

  /** A full rescan is due after every ten successful cycles without one, from the start on. */
  lemma {:induction false} RescanEveryEleventh(cycles: seq<Cycle>)
    ensures After(cycles).cyclesSinceFull == Successes(cycles) % 11
  {
    if cycles != [] {
      RescanEveryEleventh(cycles[..|cycles| - 1]);
      hide Enumerated;
    }
  }

  /** The first snapshot is the baseline: nothing was known before it, and if it is to be silent nothing is reported. */
  lemma {:induction false} FirstIsBaseline(cycles: seq<Cycle>, c: Cycle, silentFirst: bool, out: seq<seq<Report>>, reports: seq<Report>)
    requires |out| == |cycles| && RunReports(cycles + [c], silentFirst, out + [reports]) && Successes(cycles) == 0
    ensures After(cycles).prev == map[] && After(cycles).first
    ensures forall i | 0 <= i < |out| :: out[i] == []
    ensures if c.Seen? && !silentFirst then Reports(map[], After(cycles + [c]).prev, reports) else reports == []
  {
    hide Enumerated, Reports;
    OneMoreReported(cycles, c, silentFirst, out, reports);
    AfterOneMore(cycles, c);
    if cycles != [] {
      var n := |cycles| - 1;
      assert cycles == cycles[..n] + [cycles[n]] && out == out[..n] + [out[n]];
      FirstIsBaseline(cycles[..n], cycles[n], silentFirst, out[..n], out[n]);
    }
  }

  /**
   The cycle lists the service and queries it: it is time for a full rescan, the service is new, it has started or
   stopped, or nothing is known of it but that it exists.
   */
  ghost predicate IsQueried(p: Poller, c: Cycle, name: string)
    requires c.Seen?
  {
    name != "" && exists i: nat :: (
      IsLast(c.entries, name, i)
      && (p.cyclesSinceFull >= 10 || name !in p.prev || p.prev[name].running != c.entries[i].running
          || p.prev[name].config.binaryPath == ""))
  }

  /** Cycle `q` queried the service and was told this config; no more than so many successful cycles came after it. */
  ghost predicate QueriedAt(cycles: seq<Cycle>, name: string, config: Config, age: nat, q: nat) {
    && q < |cycles| && cycles[q].Seen? && IsQueried(After(cycles[..q]), cycles[q], name)
    && config == Outcome(cycles[q].query, name) && Successes(cycles[q + 1..]) <= age
  }

  ghost predicate Fresh(cycles: seq<Cycle>, name: string, config: Config, age: nat) {
    exists q: nat :: QueriedAt(cycles, name, config, age, q)
  }

  lemma FreshLater(cycles: seq<Cycle>, c: Cycle, name: string, config: Config, age: nat)
    requires Fresh(cycles, name, config, age)
    ensures Fresh(cycles + [c], name, config, if c.Seen? then age + 1 else age)
  {
    hide IsQueried, After;
    var q: nat :| QueriedAt(cycles, name, config, age, q);
    var more := cycles + [c];
    assert more[..q] == cycles[..q] && more[q + 1..] == cycles[q + 1..] + [c];
    SuccessesConcat(cycles[q + 1..], [c]);
    assert [c][..0] == [];
    assert QueriedAt(more, name, config, if c.Seen? then age + 1 else age, q);
  }

  lemma FreshNow(cycles: seq<Cycle>, c: Cycle, name: string, age: nat)
    requires c.Seen? && IsQueried(After(cycles), c, name)
    ensures Fresh(cycles + [c], name, Outcome(c.query, name), age)
  {
    hide IsQueried, After;
    var more := cycles + [c];
    assert more[..|cycles|] == cycles && more[|cycles| + 1..] == [];
    assert QueriedAt(more, name, Outcome(c.query, name), age, |cycles|);
  }

  /** The config of every service in the snapshot was queried at most ten successful cycles ago. */
  lemma {:induction false} ConfigIsFresh(cycles: seq<Cycle>, name: string)
    ensures After(cycles).cyclesSinceFull <= 10
    ensures name in After(cycles).prev ==>
      Fresh(cycles, name, After(cycles).prev[name].config, After(cycles).cyclesSinceFull)
  {
    if cycles != [] {
      var n := |cycles| - 1;
      var (before, c) := (cycles[..n], cycles[n]);
      assert cycles == before + [c];
      ConfigIsFresh(before, name);
      AfterOneMore(before, c);
      var (was, now) := (After(before), After(cycles));
      hide Fresh, Enumerated, After;
      if name in now.prev {
        if c.Seen? {
          ReusedOrQueried(was, c, name);
        }
        if c.Seen? && IsQueried(was, c, name) {
          FreshNow(before, c, name, now.cyclesSinceFull);
        } else {
          FreshLater(before, c, name, was.prev[name].config, was.cyclesSinceFull);
        }
      }
    }
  }

  /** A config is queried now, or it is the one that was there, and that only outside a full rescan. */
  lemma ReusedOrQueried(p: Poller, c: Cycle, name: string)
    requires c.Seen? && name in Next(p, c).prev
    ensures IsQueried(p, c, name) ==> Next(p, c).prev[name].config == Outcome(c.query, name)
    ensures !IsQueried(p, c, name) ==>
      p.cyclesSinceFull < FULL_RESCAN_EVERY && name in p.prev && Next(p, c).prev[name].config == p.prev[name].config
  {
    var full := p.cyclesSinceFull >= FULL_RESCAN_EVERY;
    hide Enumerated;
    if name == "" {
      NoServiceWithoutName(p.prev, full, c.entries, c.query);
    } else {
      SnapshotIsCurrent(p.prev, full, c.entries, c.query, name);
      var i: nat :| IsLast(c.entries, name, i);
      assert forall j: nat | IsLast(c.entries, name, j) :: j == i;
    }
  }

  /** After a successful cycle the snapshot lists the services of that cycle, with their current flags and names. */
  lemma FlagsAreCurrent(cycles: seq<Cycle>, c: Cycle, name: string, i: nat)
    requires c.Seen? && name != "" && IsLast(c.entries, name, i)
    ensures var s := After(cycles + [c]).prev;
      name in s && s[name].running == c.entries[i].running && s[name].displayName == c.entries[i].displayName
  {
    assert (cycles + [c])[..|cycles|] == cycles;
    var p := After(cycles);
    SnapshotIsCurrent(p.prev, p.cyclesSinceFull >= FULL_RESCAN_EVERY, c.entries, c.query, name);
  }

  function Flatten(out: seq<seq<Report>>): seq<Report> {
    if out == [] then [] else Flatten(out[..|out| - 1]) + out[|out| - 1]
  }

  lemma {:induction false} ReplayConcat(s: Snapshot, a: seq<Report>, b: seq<Report>)
    ensures Replay(s, a + b) == Replay(Replay(s, a), b)
    decreases |b|
  {
    hide Apply;
    if b == [] {
      assert a + b == a;
    } else {
      var n := |b| - 1;
      assert (a + b)[..|a| + n] == a + b[..n];
      ReplayConcat(s, a, b[..n]);
    }
  }

  lemma {:induction false} TraceConcat(status: Status, a: seq<Report>, b: seq<Report>, name: string)
    requires Trace(status, a, name).Some?
    ensures Trace(status, a + b, name) == Trace(Trace(status, a, name).value, b, name)
    decreases |b|
  {
    hide Transition;
    if b == [] {
      assert a + b == a;
    } else {
      var n := |b| - 1;
      assert (a + b)[..|a| + n] == a + b[..n];
      TraceConcat(status, a, b[..n], name);
    }
  }

  /** From here on everything is reported: the baseline is taken, or nothing is kept silent. */
  predicate Speaking(p: Poller, silentFirst: bool) {
    !p.first || !silentFirst
  }

  /** The last cycle of a window, with what it reported. */
  lemma LastCycle(past: seq<Cycle>, window: seq<Cycle>, silentFirst: bool, before: seq<seq<Report>>, out: seq<seq<Report>>)
    requires window != [] && |before| == |past| && |out| == |window|
    requires RunReports(past + window, silentFirst, before + out)
    ensures var n := |window| - 1;
      && RunReports(past + window[..n], silentFirst, before + out[..n])
      && CycleReports(After(past + window[..n]), window[n], silentFirst, out[n])
      && After(past + window) == Next(After(past + window[..n]), window[n])
      && Flatten(out) == Flatten(out[..n]) + out[n]
  {
    hide After, CycleReports, Next, RunReports;
    var n := |window| - 1;
    assert past + window == (past + window[..n]) + [window[n]];
    assert before + out == (before + out[..n]) + [out[n]];
    AfterOneMore(past + window[..n], window[n]);
    OneMoreReported(past + window[..n], window[n], silentFirst, before + out[..n], out[n]);
  }

  /**
   Over any run, from any moment after the baseline: replaying what went out since gives the current snapshot,
   and each service's starts and stops alternate, between its creation and its deletion.
   */
  lemma {:induction false} ReplayFollowsTheRun(past: seq<Cycle>, window: seq<Cycle>, silentFirst: bool,
                                               before: seq<seq<Report>>, out: seq<seq<Report>>, name: string)
    requires |before| == |past| && |out| == |window| && RunReports(past + window, silentFirst, before + out)
    requires Speaking(After(past), silentFirst)
    ensures Replay(After(past).prev, Flatten(out)) == After(past + window).prev
    ensures Trace(StatusIn(After(past).prev, name), Flatten(out), name) == Some(StatusIn(After(past + window).prev, name))
    ensures Speaking(After(past + window), silentFirst)
    decreases |window|
  {
    hide Next, CycleReports, RunReports, StatusIn, Trace, Replay, After, Flatten, Speaking;
    if window == [] {
      assert past + window == past;
      NothingReported(After(past).prev, name);
    } else {
      var n := |window| - 1;
      LastCycle(past, window, silentFirst, before, out);
      ReplayFollowsTheRun(past, window[..n], silentFirst, before, out[..n], name);
      var s := After(past).prev;
      ReplayConcat(s, Flatten(out[..n]), out[n]);
      TraceConcat(StatusIn(s, name), Flatten(out[..n]), out[n], name);
      CycleFollows(After(past + window[..n]), window[n], silentFirst, out[n], name);
    }
  }

  lemma NothingReported(s: Snapshot, name: string)
    ensures Replay(s, []) == s && Trace(StatusIn(s, name), [], name) == Some(StatusIn(s, name)) && Flatten([]) == []
  {
  }

  lemma CycleFollows(p: Poller, c: Cycle, silentFirst: bool, reports: seq<Report>, name: string)
    requires CycleReports(p, c, silentFirst, reports) && Speaking(p, silentFirst)
    ensures Replay(p.prev, reports) == Next(p, c).prev && Speaking(Next(p, c), silentFirst)
    ensures Trace(StatusIn(p.prev, name), reports, name) == Some(StatusIn(Next(p, c).prev, name))
  {
    hide Reports, Enumerated;
    if c.Failed? {
      NothingReported(p.prev, name);
    } else {
      ReplayRebuilds(p.prev, Next(p, c).prev, reports);
      ReportsTrace(p.prev, Next(p, c).prev, reports, name);
    }
  }

  // A change that stays is noticed.

  /** The service is listed and its config is answered in this way. */
  ghost predicate Shows(c: Cycle, name: string, config: Config) {
    c.Seen? ==> Outcome(c.query, name) == config && exists i: nat :: IsLast(c.entries, name, i)
  }

  predicate HasConfig(p: Poller, name: string, config: Config) {
    name in p.prev && p.prev[name].config == config
  }

  /** One cycle: the old config goes on being held, or the new one is. */
  lemma HeldOrNew(p: Poller, c: Cycle, name: string, was: Config, now: Config)
    requires name != "" && Shows(c, name, now) && (HasConfig(p, name, was) || HasConfig(p, name, now))
    ensures HasConfig(Next(p, c), name, was) || HasConfig(Next(p, c), name, now)
    ensures HasConfig(p, name, now) ==> HasConfig(Next(p, c), name, now)
  {
    if c.Seen? {
      var full := p.cyclesSinceFull >= FULL_RESCAN_EVERY;
      SnapshotIsCurrent(p.prev, full, c.entries, c.query, name);
      ReusedOrQueried(p, c, name);
    }
  }

  /** Eleven successful cycles are enough for every config to have been queried within them. */
  lemma OldConfigIsGone(past: seq<Cycle>, window: seq<Cycle>, name: string, now: Config)
    requires Successes(window) > FULL_RESCAN_EVERY && name in After(past + window).prev
    requires forall c | c in window :: Shows(c, name, now)
    ensures After(past + window).prev[name].config == now
  {
    var all := past + window;
    ConfigIsFresh(all, name);
    hide After;
    var (config, age) := (After(all).prev[name].config, After(all).cyclesSinceFull);
    var q: nat :| QueriedAt(all, name, config, age, q);
    if q < |past| {
      assert all[q + 1..] == past[q + 1..] + window;
      SuccessesConcat(past[q + 1..], window);
    } else {
      assert all[q] == window[q - |past|] && window[q - |past|] in window;
    }
  }

  /** The report of a changed config. */
  predicate IsModifyReport(r: Report, name: string, was: Config, now: Config) {
    && r.kind == Modify && r.payload.name == name && r.payload.config == now
    && r.payload.previous.Some? && r.payload.previous.value.config == was
  }

  lemma ModifyIsReported(prev: Snapshot, next: Snapshot, reports: seq<Report>, name: string, was: Config, now: Config)
    requires Reports(prev, next, reports) && was != now
    requires name in prev && prev[name].config == was && name in next && next[name].config == now
    ensures exists r :: r in reports && IsModifyReport(r, name, was, now)
  {
    hide InOrder;
    var diff :| IsDiff(prev, next, diff) && InOrder(diff) && AreReportsOf(prev, next, diff, reports);
    var d := DiffEntry(Modify, name);
    assert IsReported(prev, next, d) && d in diff;
    var i :| 0 <= i < |diff| && diff[i] == d;
    assert IsReportOf(prev, next, d, reports[i]) && reports[i] in reports;
  }

  /** One cycle: the old config goes on being held, or its change is reported, or the new one was held already. */
  lemma ChangeInOneCycle(p: Poller, c: Cycle, silentFirst: bool, reports: seq<Report>,
                         name: string, was: Config, now: Config)
    requires CycleReports(p, c, silentFirst, reports) && Speaking(p, silentFirst) && was != now
    requires HasConfig(p, name, was) && HasConfig(Next(p, c), name, now)
    ensures exists r :: r in reports && IsModifyReport(r, name, was, now)
  {
    hide Enumerated, Reports, IsModifyReport;
    if c.Seen? {
      ModifyIsReported(p.prev, Next(p, c).prev, reports, name, was, now);
    }
  }

  /**
   A service that starts or stops is queried in that very cycle: a change of config that comes with it is reported
   there and then.
   */
  lemma FlipIsReported(past: seq<Cycle>, c: Cycle, silentFirst: bool, out: seq<seq<Report>>, reports: seq<Report>,
                       name: string, i: nat, now: Config)
    requires |out| == |past| && RunReports(past + [c], silentFirst, out + [reports])
    requires Speaking(After(past), silentFirst)
    requires c.Seen? && name != "" && IsLast(c.entries, name, i) && c.query(name) == Some(now)
    requires var p := After(past).prev;
      name in p && p[name].running != c.entries[i].running && p[name].config != now
    ensures exists r :: r in reports && IsModifyReport(r, name, After(past).prev[name].config, now)
    ensures exists r :: r in reports && r.payload.name == name && r.kind == if c.entries[i].running then Start else Stop
  {
    hide After, RunReports, IsModifyReport, Enumerated, Reports;
    OneMoreReported(past, c, silentFirst, out, reports);
    var p := After(past);
    ConfigInCycle(p.prev, p.cyclesSinceFull >= FULL_RESCAN_EVERY, c.entries, c.query, name, i);
    SnapshotIsCurrent(p.prev, p.cyclesSinceFull >= FULL_RESCAN_EVERY, c.entries, c.query, name);
    var next := Next(p, c).prev;
    ModifyIsReported(p.prev, next, reports, name, p.prev[name].config, now);
    FlipIsAmongReports(p.prev, next, reports, name);
  }

  lemma FlipIsAmongReports(prev: Snapshot, next: Snapshot, reports: seq<Report>, name: string)
    requires Reports(prev, next, reports)
    requires name in prev && name in next && prev[name].running != next[name].running
    ensures exists r :: r in reports && r.payload.name == name && r.kind == if next[name].running then Start else Stop
  {
    hide InOrder;
    var diff :| IsDiff(prev, next, diff) && InOrder(diff) && AreReportsOf(prev, next, diff, reports);
    var d := DiffEntry(if next[name].running then Start else Stop, name);
    assert IsReported(prev, next, d) && d in diff;
    var i :| 0 <= i < |diff| && diff[i] == d;
    assert IsReportOf(prev, next, d, reports[i]) && reports[i] in reports;
  }

  ghost predicate IsNoticed(reports: seq<Report>, name: string, was: Config, now: Config) {
    exists r :: r in reports && IsModifyReport(r, name, was, now)
  }

  lemma {:induction false} HeldOrNoticed(past: seq<Cycle>, window: seq<Cycle>, silentFirst: bool,
                                         before: seq<seq<Report>>, out: seq<seq<Report>>,
                                         name: string, was: Config, now: Config)
    requires |before| == |past| && |out| == |window| && RunReports(past + window, silentFirst, before + out)
    requires Speaking(After(past), silentFirst) && name != "" && HasConfig(After(past), name, was) && was != now
    requires forall c | c in window :: Shows(c, name, now)
    ensures HasConfig(After(past + window), name, was)
         || (HasConfig(After(past + window), name, now) && IsNoticed(Flatten(out), name, was, now))
    decreases |window|
  {
    hide HasConfig, Shows, Next, CycleReports, RunReports, After, Flatten, Speaking, IsModifyReport;
    if window == [] {
      assert past + window == past;
    } else {
      var n := |window| - 1;
      assert window[n] in window && forall d | d in window[..n] :: d in window;
      LastCycle(past, window, silentFirst, before, out);
      HeldOrNoticed(past, window[..n], silentFirst, before, out[..n], name, was, now);
      ReplayFollowsTheRun(past, window[..n], silentFirst, before, out[..n], name);
      var p := After(past + window[..n]);
      HeldOrNew(p, window[n], name, was, now);
      if HasConfig(p, name, was) && HasConfig(Next(p, window[n]), name, now) {
        ChangeInOneCycle(p, window[n], silentFirst, out[n], name, was, now);
      }
    }
  }

  /**
   A config that changes after the baseline and stays changed is reported, from the old one to the new one, within
   eleven successful cycles, however many cycles fail in between.
   */
  lemma ChangeIsReported(past: seq<Cycle>, window: seq<Cycle>, silentFirst: bool,
                         before: seq<seq<Report>>, out: seq<seq<Report>>, name: string, was: Config, now: Config)
    requires |before| == |past| && |out| == |window| && RunReports(past + window, silentFirst, before + out)
    requires Speaking(After(past), silentFirst) && name != "" && HasConfig(After(past), name, was) && was != now
    requires Successes(window) == 11 && forall c | c in window :: Shows(c, name, now)
    ensures exists r :: r in Flatten(out) && IsModifyReport(r, name, was, now)
  {
    hide IsModifyReport, After, RunReports, Shows, Flatten;
    HeldOrNoticed(past, window, silentFirst, before, out, name, was, now);
    OldConfigIsGone(past, window, name, now);
  }
}
