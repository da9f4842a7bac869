/**
 Supervising auto-launched plugins: who may be launched while threads come and go, and how one plugin is kept
 running (src/plugin/supervisor.rs).
 */
module Supervisor {
  import opened Options
  import opened Manifests

  // One plugin: waiting for its process, and how long to wait before the next one.

  const MAX_BACKOFF: nat := 60           // seconds, as all times below
  const INITIAL_BACKOFF: nat := 1
  const STABLE_THRESHOLD: nat := 5 * 60

  function Min(a: nat, b: nat): nat {
    if a < b then a else b
  }

  function Pow2(k: nat): (p: nat)
    ensures p > 0
  {
    if k == 0 then 1 else 2 * Pow2(k - 1)
  }

  function NextBackoff(prev: nat): (next: nat)
  {
    var next := 2 * prev;
    if next > MAX_BACKOFF then MAX_BACKOFF else next
  }

  /** The seconds to wait after k failures in a row, k from 0. */
  function WaitAfter(k: nat): nat {
    Min(Pow2(k), 60)
  }

  /** Doubling under the cap keeps to the powers of two. */
  lemma BackoffIsPower(k: nat)
    ensures NextBackoff(WaitAfter(k)) == WaitAfter(k + 1)
    ensures WaitAfter(0) == INITIAL_BACKOFF
  {
  }

  // Waiting for a process.

  /** The manifest file at some moment. */
  datatype FileRead = NotFound | IoError | BadJson | Parsed(manifest: Manifest)

  datatype ManifestState = Unchanged | Changed(manifest: Manifest) | ManifestRevoked | Missing | ReadError

  function ReadManifest(file: FileRead, current: Manifest): ManifestState {
    match file
    case NotFound => Missing
    case IoError => ReadError
    case BadJson => ReadError
    case Parsed(m) =>
      if m.revoked then ManifestRevoked
      else if m.expectedSha256 != current.expectedSha256 || m.expectedPath != current.expectedPath then Changed(m)
      else Unchanged
  }

  datatype Child = Running | Gone | WaitError

  /** One round of polling: the child, the shutdown flag, and the manifest if a look at it is due. */
  datatype Poll = Poll(child: Child, shutdown: bool, look: Option<FileRead>)

  datatype WaitOutcome = ChildExited | Revoked | Updated(manifest: Manifest) | Shutdown

  predicate IsWithdrawn(file: FileRead) {
    file.NotFound? || (file.Parsed? && file.manifest.revoked)
  }

  /** The reasons to leave a process alone: it runs, nobody is shutting down, and its manifest asks for the same binary. */
  predicate LeaveAlone(p: Poll, current: Manifest) {
    && p.child.Running? && !p.shutdown
    && match p.look
       case Some(NotFound) => false
       case Some(Parsed(m)) =>
         !m.revoked && m.expectedSha256 == current.expectedSha256 && m.expectedPath == current.expectedPath
       case _ => true
  }

  /** The outcome at the first poll that gives a reason; `None` if the polls end before. */
  function Waited(current: Manifest, polls: seq<Poll>): Option<WaitOutcome> {
    if polls == [] then None
    else if LeaveAlone(polls[0], current) then Waited(current, polls[1..])
    else if !polls[0].child.Running? then Some(ChildExited)
    else if polls[0].shutdown then Some(Shutdown)
    else if IsWithdrawn(polls[0].look.value) then Some(Revoked)
    else Some(Updated(polls[0].look.value.manifest))
  }

  method WaitForExitOrChange(current: Manifest, polls: seq<Poll>) returns (outcome: Option<WaitOutcome>, n: nat)
    ensures outcome == Waited(current, polls)
    ensures n <= |polls| && (forall i | 0 <= i < n :: LeaveAlone(polls[i], current))
    ensures outcome.None? <==> n == |polls|
    ensures n < |polls| ==>
      && !LeaveAlone(polls[n], current)
      && (outcome.value.ChildExited? <==> !polls[n].child.Running?)
      && (outcome.value.Shutdown? <==> polls[n].child.Running? && polls[n].shutdown)
      && (outcome.value.Updated? ==> polls[n].look == Some(Parsed(outcome.value.manifest))
                                     && !outcome.value.manifest.revoked)
      && (outcome.value.Revoked? ==> polls[n].look.Some? && IsWithdrawn(polls[n].look.value))
  {
    n := 0;
    while n < |polls|
      invariant n <= |polls| && forall i | 0 <= i < n :: LeaveAlone(polls[i], current)
      invariant Waited(current, polls) == Waited(current, polls[n..])
    {
      var p := polls[n];
      assert polls[n..][1..] == polls[n + 1..];
      if !p.child.Running? {
        return Some(ChildExited), n;
      }
      if p.shutdown {
        return Some(Shutdown), n;
      }
      if p.look.Some? {
        match ReadManifest(p.look.value, current)
        case Missing => return Some(Revoked), n;
        case ManifestRevoked => return Some(Revoked), n;
        case Changed(m) => return Some(Updated(m)), n;
        case _ =>
      }
      n := n + 1;
    }
    return None, n;
  }

  /** The process runs on, and whoever looks at the file cannot read it. */
  predicate IsQuiet(p: Poll) {
    p.child.Running? && !p.shutdown && p.look in {None, Some(IoError), Some(BadJson)}
  }

  /**
   A manifest that is found while the process runs ends the wait exactly if it is revoked or gives another path or
   another hash: nothing else in it matters, and it takes no more than one look.
   */
  lemma {:induction false} NewManifestEndsTheWait(current: Manifest, before: seq<Poll>, m: Manifest, behind: seq<Poll>)
    requires forall p | p in before :: IsQuiet(p)
    ensures Waited(current, before + [Poll(Running, false, Some(Parsed(m)))] + behind) ==
      if m.revoked then Some(Revoked)
      else if m.expectedPath != current.expectedPath || m.expectedSha256 != current.expectedSha256 then Some(Updated(m))
      else Waited(current, behind)
  {
    var polls := before + [Poll(Running, false, Some(Parsed(m)))] + behind;
    if before == [] {
      assert polls[1..] == behind;
    } else {
      assert before[0] in before && polls[1..] == before[1..] + [Poll(Running, false, Some(Parsed(m)))] + behind;
      NewManifestEndsTheWait(current, before[1..], m, behind);
    }
  }

  // The loop around it.

  /** What becomes of a launch: no process, or one that is polled. `alive` and the flags count once it has exited. */
  datatype Process =
    | NoSpawn(stopInSleep: bool)
    | Spawned(polls: seq<Poll>, alive: nat, stop: bool, stopInSleep: bool)

  /** One turn of the loop: the flag at its head, the manifest file when the process is launched, and the process. */
  datatype Life = Life(stopAtHead: bool, file: FileRead, process: Process)

  datatype Ending =
    | SpawnFailed
    | Exited(alive: nat)
    | Replaced(manifest: Manifest)
    | Withdrawn
    | Interrupted
    | StillRunning               // as far as the polls go

  function EndingOf(current: Manifest, life: Life): Ending {
    match life.process
    case NoSpawn(_) => SpawnFailed
    case Spawned(polls, alive, _, _) =>
      match Waited(current, polls)
      case None => StillRunning
      case Some(ChildExited) => Exited(alive)
      case Some(Revoked) => Withdrawn
      case Some(Updated(m)) => Replaced(m)
      case Some(Shutdown) => Interrupted
  }

  /** There is a next turn: an update, or a failure or exit that no shutdown follows. */
  predicate GoesOn(current: Manifest, life: Life) {
    !life.stopAtHead
    && match EndingOf(current, life)
       case SpawnFailed => !life.process.stopInSleep
       case Exited(_) => !life.process.stop && !life.process.stopInSleep
       case Replaced(_) => true
       case _ => false
  }

  /**
   The manifest in force, the last update or the one the thread was started with, and the consecutive failures
   since the start, an update or a process that lasted five minutes.
   */
  datatype Status = Status(current: Manifest, failures: nat)

  function Next(s: Status, life: Life): Status {
    match EndingOf(s.current, life)
    case SpawnFailed => s.(failures := s.failures + 1)
    case Exited(alive) => s.(failures := if alive >= 300 then 1 else s.failures + 1)
    case Replaced(m) => Status(m, 0)
    case _ => s
  }

  function After(initial: Manifest, lives: seq<Life>): Status {
    if lives == [] then Status(initial, 0) else Next(After(initial, lives[..|lives| - 1]), lives[|lives| - 1])
  }

  /** The loop comes through all of these lives. */
  predicate Reached(initial: Manifest, lives: seq<Life>) {
    lives == [] ||
    (Reached(initial, lives[..|lives| - 1])
     && GoesOn(After(initial, lives[..|lives| - 1]).current, lives[|lives| - 1]))
  }

  /** What a turn does: the manifest it launches from, and the seconds it sets out to wait. */
  datatype Turn = Turn(launched: Manifest, wait: Option<nat>)

  /**
   The turn that is called for: the k-th failure in a row, k from 0, waits min(2^k, 60) seconds, and a process
   that lasted starts the count again.
   */
  function CalledFor(s: Status, life: Life): Turn {
    Turn(s.current,
         match EndingOf(s.current, life)
         case SpawnFailed => Some(WaitAfter(s.failures))
         case Exited(alive) =>
           if life.process.stop then None
           else if alive >= 300 then Some(1)
           else Some(WaitAfter(s.failures))
         case _ => None)
  }

  /** All turns of a run that has come this far. */
  function Turns(initial: Manifest, lives: seq<Life>): (r: seq<Turn>)
    ensures |r| == |lives|
  {
    if lives == [] then []
    else
      var before := lives[..|lives| - 1];
      Turns(initial, before) + [CalledFor(After(initial, before), lives[|lives| - 1])]
  }

  lemma StartOfLives(initial: Manifest)
    ensures After(initial, []) == Status(initial, 0) && Turns(initial, []) == [] && Reached(initial, [])
  {
  }

  lemma OneMoreLife(initial: Manifest, before: seq<Life>, life: Life)
    ensures var s := After(initial, before);
      && After(initial, before + [life]) == Next(s, life)
      && Turns(initial, before + [life]) == Turns(initial, before) + [CalledFor(s, life)]
      && (Reached(initial, before + [life]) <==> Reached(initial, before) && GoesOn(s.current, life))
  {
    hide CalledFor, Next, GoesOn;
    assert (before + [life])[..|before|] == before;
  }

  /** Every turn is the one that is called for. */
  lemma {:induction false} TurnAt(initial: Manifest, lives: seq<Life>, i: nat)
    requires i < |lives|
    ensures Turns(initial, lives)[i] == CalledFor(After(initial, lives[..i]), lives[i])
  {
    hide CalledFor;
    var n := |lives| - 1;
    if i < n {
      TurnAt(initial, lives[..n], i);
      assert lives[..n][..i] == lives[..i];
    }
  }

  method SuperviseOne(initial: Manifest, lives: seq<Life>) returns (turns: seq<Turn>)
    ensures |turns| <= |lives| && turns == Turns(initial, lives[..|turns|])
    ensures var n := |turns|;
      && (n > 0 ==> Reached(initial, lives[..n - 1]) && !lives[n - 1].stopAtHead)
      && (n < |lives| ==>
            if Reached(initial, lives[..n]) then lives[n].stopAtHead
            else n > 0 && !GoesOn(After(initial, lives[..n - 1]).current, lives[n - 1]))
  {
    var current, backoff := initial, INITIAL_BACKOFF;
    turns := [];
    BackoffIsPower(0);
    hide WaitAfter, After, Turns, CalledFor, Reached, GoesOn, Next;
    StartOfLives(initial);
    var i := 0;
    assert lives[..0] == [];
    while i < |lives| && !lives[i].stopAtHead
      invariant 0 <= i <= |lives| && |turns| == i && turns == Turns(initial, lives[..i])
      invariant Reached(initial, lives[..i]) && (i > 0 ==> Reached(initial, lives[..i - 1]) && !lives[i - 1].stopAtHead)
      invariant After(initial, lives[..i]).current == current
      invariant backoff == WaitAfter(After(initial, lives[..i]).failures)
      decreases |lives| - i
    {
      ghost var before := lives[..i];
      assert lives[..i + 1] == before + [lives[i]];
      OneMoreLife(initial, before, lives[i]);
      var turn, over;
      turn, current, backoff, over := LiveOnce(After(initial, before), lives[i], current, backoff);
      turns := turns + [turn];
      if over {
        return;
      }
      i := i + 1;
    }
  }

  /** One turn of the loop. */
  method LiveOnce(ghost s: Status, life: Life, current: Manifest, backoff: nat)
    returns (turn: Turn, current': Manifest, backoff': nat, over: bool)
    requires !life.stopAtHead && current == s.current && backoff == WaitAfter(s.failures)
    ensures turn == CalledFor(s, life) && over == !GoesOn(s.current, life)
    ensures !over ==> current' == Next(s, life).current && backoff' == WaitAfter(Next(s, life).failures)
  {
    hide WaitAfter, NextBackoff, Waited;
    BackoffIsPower(s.failures);
    BackoffIsPower(0);
    current', backoff', over := current, backoff, true;
    match life.process
    case NoSpawn(stopInSleep) =>
      turn := Turn(current, Some(backoff));
      if stopInSleep {
        return;
      }
      backoff', over := NextBackoff(backoff), false;
    case Spawned(polls, alive, stop, stopInSleep) =>
      var outcome, _ := WaitForExitOrChange(current, polls);
      turn := Turn(current, None);
      match outcome
      case Some(ChildExited) =>
        if stop {
          return;
        }
        if alive >= STABLE_THRESHOLD {
          backoff' := INITIAL_BACKOFF;
        }
        turn := Turn(current, Some(backoff'));
        if stopInSleep {
          return;
        }
        backoff', over := NextBackoff(backoff'), false;
      case Some(Updated(manifest)) =>
        current', backoff', over := manifest, INITIAL_BACKOFF, false;
      case _ =>
  }

  /** A turn that has another one behind it had no shutdown in it, at its head, at its exit or in its sleep. */
  lemma NoTurnAfterShutdown(initial: Manifest, lives: seq<Life>, life: Life)
    requires Reached(initial, lives + [life])
    ensures !life.stopAtHead
    ensures life.process.NoSpawn? ==> !life.process.stopInSleep
    ensures life.process.Spawned? ==>
      var outcome := Waited(After(initial, lives).current, life.process.polls);
      && outcome.Some? && (outcome.value.ChildExited? || outcome.value.Updated?)
      && (outcome.value.ChildExited? ==> !life.process.stop && !life.process.stopInSleep)
  {
    assert (lives + [life])[..|lives|] == lives;
    hide Waited;
  }

  /** A launch without a process, or a process that did not last. */
  predicate IsFailure(current: Manifest, life: Life) {
    EndingOf(current, life).SpawnFailed?
    || (EndingOf(current, life).Exited? && EndingOf(current, life).alive < 300)
  }

  /** Failures that follow each other without a break are counted one by one, all with the same manifest. */
  lemma {:induction false} FailuresInARow(initial: Manifest, before: seq<Life>, fails: seq<Life>)
    requires forall i | 0 <= i < |fails| :: IsFailure(After(initial, before).current, fails[i])
    ensures After(initial, before + fails)
         == Status(After(initial, before).current, After(initial, before).failures + |fails|)
  {
    if fails == [] {
      assert before + fails == before;
    } else {
      var n := |fails| - 1;
      FailuresInARow(initial, before, fails[..n]);
      assert before + fails == (before + fails[..n]) + [fails[n]];
      OneMoreLife(initial, before + fails[..n], fails[n]);
    }
  }

  /** The waits double from failure to failure, up to a minute. */
  lemma StreakWaits(initial: Manifest, before: seq<Life>, fails: seq<Life>, k: nat)
    requires k < |fails| && forall i | 0 <= i < |fails| :: IsFailure(After(initial, before).current, fails[i])
    requires fails[k].process.Spawned? ==> !fails[k].process.stop
    ensures var n := After(initial, before).failures + k;
      Turns(initial, before + fails)[|before| + k].wait == Some(if n < 6 then Pow2(n) else 60)
  {
    hide After, Turns, CalledFor, WaitAfter, Pow2, EndingOf, IsFailure;
    var (all, i) := (before + fails, |before| + k);
    assert all[..i] == before + fails[..k] && all[i] == fails[k];
    TurnAt(initial, all, i);
    FailuresInARow(initial, before, fails[..k]);
    FailureWaits(After(initial, all[..i]), fails[k]);
    MinuteFromSix(After(initial, before).failures + k);
  }

  lemma FailureWaits(s: Status, life: Life)
    requires IsFailure(s.current, life) && (life.process.Spawned? ==> !life.process.stop)
    ensures CalledFor(s, life).wait == Some(WaitAfter(s.failures))
  {
    hide Waited, WaitAfter;
  }

  lemma {:induction false} MinuteFromSix(n: nat)
    ensures WaitAfter(n) == if n < 6 then Pow2(n) else 60
  {
    if n > 6 {
      MinuteFromSix(n - 1);
    } else {
      assert Pow2(1) == 2 && Pow2(2) == 4 && Pow2(3) == 8 && Pow2(4) == 16 && Pow2(5) == 32 && Pow2(6) == 64;
    }
  }

  /** Where the count starts: at zero with the thread or an update, at one with the exit of a process that lasted. */
  lemma CountStarts(initial: Manifest, before: seq<Life>, life: Life)
    ensures After(initial, []).failures == 0
    ensures var (s, e) := (After(initial, before), EndingOf(After(initial, before).current, life));
      && (e.Replaced? ==> After(initial, before + [life]).failures == 0)
      && (e.Exited? && e.alive >= 300 ==>
            After(initial, before + [life]).failures == 1 && CalledFor(s, life).wait in {None, Some(1)})
  {
    OneMoreLife(initial, before, life);
  }

  // What is launched, and what the file says by then.

  /** The poll that comes to look at the file, and gets to see a manifest or that there is none. */
  predicate Sees(p: Poll) {
    p.child.Running? && !p.shutdown && p.look.Some? && (p.look.value.NotFound? || p.look.value.Parsed?)
  }

  /** What the last look during this wait saw, if any did. */
  function SeenWaiting(current: Manifest, polls: seq<Poll>, seen: FileRead): FileRead {
    if polls == [] then seen
    else
      var now := if Sees(polls[0]) then polls[0].look.value else seen;
      if LeaveAlone(polls[0], current) then SeenWaiting(current, polls[1..], now) else now
  }

  /** What the last look of the run saw, beginning with the manifest the scan found. A launch that fails takes no look. */
  function LastSeen(initial: Manifest, lives: seq<Life>): FileRead {
    if lives == [] then Parsed(initial)
    else
      var (before, life) := (lives[..|lives| - 1], lives[|lives| - 1]);
      var seen := LastSeen(initial, before);
      match life.process
      case NoSpawn(_) => seen
      case Spawned(polls, _, _, _) => SeenWaiting(After(initial, before).current, polls, seen)
  }

  predicate SameBinary(m: Manifest, n: Manifest) {
    m.expectedSha256 == n.expectedSha256 && m.expectedPath == n.expectedPath
  }

  /** The file asks for the binary of this manifest, and is not revoked. */
  predicate AsksFor(file: FileRead, m: Manifest) {
    file.Parsed? && !file.manifest.revoked && SameBinary(file.manifest, m)
  }

  lemma {:induction false} SeenWhileWaiting(current: Manifest, polls: seq<Poll>, seen: FileRead)
    requires AsksFor(seen, current)
    ensures var (now, outcome) := (SeenWaiting(current, polls, seen), Waited(current, polls));
      match outcome
      case Some(Revoked) => IsWithdrawn(now)
      case Some(Updated(m)) => now == Parsed(m) && !m.revoked
      case _ => AsksFor(now, current)
  {
    if polls != [] && LeaveAlone(polls[0], current) {
      SeenWhileWaiting(current, polls[1..], if Sees(polls[0]) then polls[0].look.value else seen);
    }
  }

  /** The manifest in force is never a revoked one, and asks for the binary that the last look saw asked for. */
  lemma {:induction false} LaunchesWhatWasSeen(initial: Manifest, lives: seq<Life>)
    requires !initial.revoked && Reached(initial, lives)
    ensures AsksFor(LastSeen(initial, lives), After(initial, lives).current) && !After(initial, lives).current.revoked
  {
    if lives != [] {
      var (before, life) := (lives[..|lives| - 1], lives[|lives| - 1]);
      LaunchesWhatWasSeen(initial, before);
      if life.process.Spawned? {
        SeenWhileWaiting(After(initial, before).current, life.process.polls, LastSeen(initial, before));
      }
      hide Waited, SeenWaiting;
    }
  }

  /** The file was revoked or removed after that look. */
  predicate WithdrawnSince(seen: FileRead, file: FileRead) {
    !IsWithdrawn(seen) && IsWithdrawn(file)
  }

  /** The file came to ask for another binary after that look. */
  predicate UpdatedSince(seen: FileRead, file: FileRead) {
    seen.Parsed? && file.Parsed? && !file.manifest.revoked && !SameBinary(file.manifest, seen.manifest)
  }

  /**
   A launch is of a plugin that is revoked or removed on disk exactly if that happened since the last look, and of
   a binary the file no longer asks for exactly if the file was updated since. Only a running process is looked
   after, so both can happen while a plugin fails to start, between its exit and its restart, or just before either.
   */
  lemma OutdatedExactlyWhen(initial: Manifest, before: seq<Life>, life: Life)
    requires !initial.revoked && Reached(initial, before) && !life.stopAtHead
    ensures var (launched, seen) := (CalledFor(After(initial, before), life).launched, LastSeen(initial, before));
      && (IsWithdrawn(life.file) <==> WithdrawnSince(seen, life.file))
      && (life.file.Parsed? && !life.file.manifest.revoked && !SameBinary(life.file.manifest, launched)
          <==> UpdatedSince(seen, life.file))
  {
    LaunchesWhatWasSeen(initial, before);
  }

  /** A look that finds the plugin revoked or removed is the last thing its thread does. */
  lemma {:induction false} SeenWithdrawnIsOver(current: Manifest, polls: seq<Poll>, i: nat)
    requires i < |polls| && (forall j | 0 <= j < i :: LeaveAlone(polls[j], current))
    requires Sees(polls[i]) && IsWithdrawn(polls[i].look.value)
    ensures Waited(current, polls) == Some(Revoked)
    ensures forall life: Life | life.process.Spawned? && life.process.polls == polls :: !GoesOn(current, life)
  {
    if i > 0 {
      SeenWithdrawnIsOver(current, polls[1..], i - 1);
    }
  }

  /** However often a plugin fails to start, none of the attempts looks at its file. */
  lemma {:induction false} FailingTakesNoLook(initial: Manifest, before: seq<Life>, fails: seq<Life>)
    requires forall i | 0 <= i < |fails| :: fails[i].process.NoSpawn?
    ensures LastSeen(initial, before + fails) == LastSeen(initial, before)
    ensures After(initial, before + fails).current == After(initial, before).current
  {
    if fails == [] {
      assert before + fails == before;
    } else {
      var n := |fails| - 1;
      FailingTakesNoLook(initial, before, fails[..n]);
      assert (before + fails)[..|before| + n] == before + fails[..n];
    }
  }

  /** A plugin that does not start, with its manifest revoked after the first attempt. */
  function RevokedWhileFailing(m: Manifest, k: nat): seq<Life> {
    [Life(false, Parsed(m), NoSpawn(false))] + seq(k, _ => Life(false, Parsed(m.(revoked := true)), NoSpawn(false)))
  }

  /** It is launched again and again. */
  lemma RevokedIsLaunchedAgain(m: Manifest, k: nat, i: nat)
    requires !m.revoked && 1 <= i <= k
    ensures var lives := RevokedWhileFailing(m, k);
      && Reached(m, lives) && IsWithdrawn(lives[i].file) && Turns(m, lives)[i].launched == m
  {
    hide Waited;
    var lives := RevokedWhileFailing(m, k);
    FailuresGoOn(m, lives);
    StartOfLives(m);
    hide After, Turns, Reached;
    TurnAt(m, lives, i);
    FailingTakesNoLook(m, [], lives[..i]);
    assert [] + lives[..i] == lives[..i];
    hide RevokedWhileFailing;
  }

  lemma {:induction false} FailuresGoOn(m: Manifest, lives: seq<Life>)
    requires forall i | 0 <= i < |lives| ::
      !lives[i].stopAtHead && lives[i].process.NoSpawn? && !lives[i].process.stopInSleep
    ensures Reached(m, lives)
  {
    if lives != [] {
      FailuresGoOn(m, lives[..|lives| - 1]);
    }
  }

  /** A crash before the first look, and the manifest removed by the time of the restart. */
  lemma RemovedIsLaunchedAgain(m: Manifest)
    requires !m.revoked
    ensures var crash := Life(false, Parsed(m), Spawned([Poll(Gone, false, None)], 0, false, false));
      var lives := [crash, Life(false, NotFound, Spawned([], 0, false, false))];
      && Reached(m, lives[..1]) && IsWithdrawn(lives[1].file) && Turns(m, lives)[1].launched == m
  {
    var crash := Life(false, Parsed(m), Spawned([Poll(Gone, false, None)], 0, false, false));
    var lives := [crash, Life(false, NotFound, Spawned([], 0, false, false))];
    assert lives[..1] == [crash] && [crash] == [] + [crash];
    OneMoreLife(m, [], crash);
    TurnAt(m, lives, 1);
  }

  // All plugins: scanning, reserving and releasing while the threads run.

  predicate Eligible(m: Manifest) {
    m.autoLaunch && !m.revoked
  }

  /** A supervising thread; it is done once `supervise_one` has returned and its entry is still to be removed. */
  datatype Thread = Thread(id: string, done: bool)

  /** The scan that is under way, if any: the plugins to launch and how many of them have been. */
  datatype Scanner =
    | Resting
    | Launching(all: seq<string>, k: nat)
    | Reserved(all: seq<string>, k: nat)

  datatype State = State(
    supervised: set<string>,
    threads: map<nat, Thread>,
    scanner: Scanner,
    launched: seq<string>)       // the ids of all threads ever spawned, in order

  datatype Action =
    | Filter(store: Store, all: seq<string>)   // in whatever order the store is walked
    | Reserve
    | SpawnThread
    | FinishScan
    | Return(thread: nat)
    | Release(thread: nat)

  predicate Once(ids: seq<string>) {
    forall i, j | 0 <= i < j < |ids| :: ids[i] != ids[j]
  }

  /** The plugins a scan decides to launch, each once. */
  ghost predicate ToLaunch(store: Store, supervised: set<string>, all: seq<string>) {
    Once(all) && forall id :: id in all <==> id in store && store[id].autoLaunch && !store[id].revoked && id !in supervised
  }

  ghost predicate Enabled(s: State, a: Action) {
    match a
    case Filter(store, all) => s.scanner.Resting? && ToLaunch(store, s.supervised, all)
    case Reserve => s.scanner.Launching? && s.scanner.k < |s.scanner.all|
    case SpawnThread => s.scanner.Reserved? && s.scanner.k < |s.scanner.all|
    case FinishScan => s.scanner.Launching? && s.scanner.k >= |s.scanner.all|
    case Return(t) => t in s.threads && !s.threads[t].done
    case Release(t) => t in s.threads && s.threads[t].done
  }

  function Step(s: State, a: Action): State
    requires Enabled(s, a)
  {
    match a
    case Filter(_, all) => s.(scanner := Launching(all, 0))
    case Reserve =>
      var (all, k) := (s.scanner.all, s.scanner.k);
      s.(supervised := s.supervised + {all[k]}, scanner := Reserved(all, k))
    case SpawnThread =>
      var (all, k) := (s.scanner.all, s.scanner.k);
      s.(threads := s.threads[|s.launched| := Thread(all[k], false)], scanner := Launching(all, k + 1),
         launched := s.launched + [all[k]])
    case FinishScan => s.(scanner := Resting)
    case Return(t) => s.(threads := s.threads[t := s.threads[t].(done := true)])
    case Release(t) => s.(supervised := s.supervised - {s.threads[t].id}, threads := s.threads - {t})
  }

  const INITIAL := State({}, map[], Resting, [])

  ghost predicate ValidRun(s: State, actions: seq<Action>)
    decreases |actions|
  {
    actions == [] || (Enabled(s, actions[0]) && ValidRun(Step(s, actions[0]), actions[1..]))
  }

  ghost function Run(s: State, actions: seq<Action>): State
    requires ValidRun(s, actions)
    decreases |actions|
  {
    if actions == [] then s else Run(Step(s, actions[0]), actions[1..])
  }

  /** The id the scanner has reserved and not yet given to a thread. */
  predicate IsReserved(scanner: Scanner, id: string) {
    scanner.Reserved? && scanner.k < |scanner.all| && scanner.all[scanner.k] == id
  }

  predicate Owns(s: State, t: nat, id: string) {
    t in s.threads && s.threads[t].id == id
  }

  predicate OnePerThread(threads: map<nat, Thread>) {
    forall t, u | t in threads && u in threads && threads[t].id == threads[u].id :: t == u
  }

  ghost predicate AllOwned(s: State) {
    forall id | id in s.supervised :: IsReserved(s.scanner, id) || exists t :: Owns(s, t, id)
  }

  predicate ThreadsListed(threads: map<nat, Thread>, supervised: set<string>, scanner: Scanner) {
    forall t | t in threads :: threads[t].id in supervised && !IsReserved(scanner, threads[t].id)
  }

  predicate OwnersListed(s: State) {
    && ThreadsListed(s.threads, s.supervised, s.scanner)
    && (s.scanner.Reserved? && s.scanner.k < |s.scanner.all| ==> s.scanner.all[s.scanner.k] in s.supervised)
  }

  /** Nobody is supervised twice: one owner for each id of the set, and none for the others. */
  ghost predicate OneOwnerEach(s: State) {
    && OwnersListed(s) && OnePerThread(s.threads) && AllOwned(s)
    && |s.supervised| == |s.threads| + if s.scanner.Reserved? then 1 else 0
  }

  /** What is still to be launched is not supervised, and what was launched is on record. */
  ghost predicate ScannerOk(s: State) {
    && (forall t | t in s.threads :: t < |s.launched|)
    && (!s.scanner.Resting? ==>
          var (all, k) := (s.scanner.all, s.scanner.k);
          && Once(all) && k <= |all| && k <= |s.launched| && (s.scanner.Reserved? ==> k < |all|)
          && s.launched[|s.launched| - k..] == all[..k]
          && (forall i | (if s.scanner.Reserved? then k + 1 else k) <= i < |all| :: all[i] !in s.supervised))
  }

  lemma SizesOf<V>(m: map<nat, V>, t: nat, v: V)
    ensures |m[t := v]| == if t in m then |m| else |m| + 1
    ensures t in m ==> |m - {t}| == |m| - 1
  {
    assert m[t := v].Keys == m.Keys + {t};
    assert (m - {t}).Keys == m.Keys - {t};
  }

  lemma ScannerKept(s: State, a: Action)
    requires Enabled(s, a) && ScannerOk(s)
    ensures ScannerOk(Step(s, a))
  {
    match a
    case Filter(store, all) =>
      assert forall i | 0 <= i < |all| :: all[i] in all;
    case SpawnThread =>
      var (all, k, n) := (s.scanner.all, s.scanner.k, |s.launched|);
      assert (s.launched + [all[k]])[n - k..] == s.launched[n - k..] + [all[k]];
      assert all[..k + 1] == all[..k] + [all[k]];
    case _ =>
  }

  lemma OwnersKept(s: State, a: Action)
    requires Enabled(s, a) && ScannerOk(s) && OneOwnerEach(s)
    ensures OneOwnerEach(Step(s, a))
  {
    match a
    case Filter(_, _) => SameOwners(s, Step(s, a));
    case FinishScan => SameOwners(s, Step(s, a));
    case Reserve => ReserveKept(s);
    case SpawnThread => SpawnKept(s);
    case Return(t) => ReturnKept(s, t);
    case Release(t) => ReleaseKept(s, t);
  }

  lemma SameOwners(s: State, s': State)
    requires OneOwnerEach(s) && !s.scanner.Reserved? && !s'.scanner.Reserved?
    requires s'.supervised == s.supervised && s'.threads == s.threads
    ensures OneOwnerEach(s')
  {
    hide OnePerThread;
    forall id | id in s'.supervised
      ensures exists t :: Owns(s', t, id)
    {
      var t :| Owns(s, t, id);
      assert Owns(s', t, id);
    }
  }

  lemma ReserveKept(s: State)
    requires Enabled(s, Reserve) && ScannerOk(s) && OneOwnerEach(s)
    ensures OneOwnerEach(Step(s, Reserve))
  {
    hide OnePerThread;
    var s' := Step(s, Reserve);
    var reserved := s.scanner.all[s.scanner.k];
    assert reserved !in s.supervised;
    assert s'.supervised == s.supervised + {reserved} && s'.threads == s.threads;
    assert forall id :: IsReserved(s'.scanner, id) <==> id == reserved;
    assert forall id :: !IsReserved(s.scanner, id);
    hide ScannerOk, Step, Enabled, IsReserved;
    assert ThreadsListed(s'.threads, s'.supervised, s'.scanner);
    hide ThreadsListed;
    forall id | id in s.supervised
      ensures exists t :: Owns(s', t, id)
    {
      var t :| Owns(s, t, id);
      assert Owns(s', t, id);
    }
  }

  /** A thread for the id that was reserved: nobody else has it, and it is reserved no longer. */
  lemma OneMoreThread(threads: map<nat, Thread>, n: nat, id: string, supervised: set<string>, was: Scanner, now: Scanner)
    requires OnePerThread(threads) && ThreadsListed(threads, supervised, was) && n !in threads
    requires IsReserved(was, id) && id in supervised && !now.Reserved?
    ensures OnePerThread(threads[n := Thread(id, false)])
    ensures ThreadsListed(threads[n := Thread(id, false)], supervised, now)
  {
    assert forall t | t in threads :: threads[t].id != id;
  }

  lemma SpawnKept(s: State)
    requires Enabled(s, SpawnThread) && ScannerOk(s) && OneOwnerEach(s)
    ensures OneOwnerEach(Step(s, SpawnThread))
  {
    var s' := Step(s, SpawnThread);
    var (n, reserved) := (|s.launched|, s.scanner.all[s.scanner.k]);
    assert s'.supervised == s.supervised && s'.threads == s.threads[n := Thread(reserved, false)] && !s'.scanner.Reserved?;
    assert IsReserved(s.scanner, reserved) && n !in s.threads;
    assert forall id :: IsReserved(s.scanner, id) <==> id == reserved;
    hide ScannerOk, Step, Enabled, IsReserved, OnePerThread, ThreadsListed;
    SizesOf(s.threads, n, Thread(reserved, false));
    OneMoreThread(s.threads, n, reserved, s.supervised, s.scanner, s'.scanner);
    assert Owns(s', n, reserved);
    forall id | id in s'.supervised
      ensures exists t :: Owns(s', t, id)
    {
      if id != reserved {
        var t :| Owns(s, t, id);
        assert Owns(s', t, id);
      }
    }
  }

  lemma ReturnKept(s: State, t: nat)
    requires Enabled(s, Return(t)) && OneOwnerEach(s)
    ensures OneOwnerEach(Step(s, Return(t)))
  {
    var s' := Step(s, Return(t));
    assert s'.supervised == s.supervised && s'.scanner == s.scanner;
    assert s'.threads == s.threads[t := s.threads[t].(done := true)] && t in s.threads;
    hide Step, Enabled, AllOwned, IsReserved;
    hide OnePerThread, ThreadsListed;
    SameIds(s.threads, t, s'.threads[t], s.supervised, s.scanner);
    SizesOf(s.threads, t, s'.threads[t]);
    assert s.supervised - {} == s.supervised;
    OwnedByTheOthers(s, s', {});
  }

  lemma SameIds(threads: map<nat, Thread>, t: nat, now: Thread, supervised: set<string>, scanner: Scanner)
    requires t in threads && now.id == threads[t].id
    ensures ThreadsListed(threads, supervised, scanner) ==> ThreadsListed(threads[t := now], supervised, scanner)
    ensures OnePerThread(threads) ==> OnePerThread(threads[t := now])
    ensures forall u | u in threads :: threads[t := now][u].id == threads[u].id
    ensures forall u :: u in threads[t := now] <==> u in threads
  {
    hide IsReserved;
  }

  /** Plugins stay owned as long as their threads stay. */
  lemma OwnedByTheOthers(s: State, s': State, gone: set<string>)
    requires AllOwned(s) && s'.scanner == s.scanner && s'.supervised == s.supervised - gone
    requires forall u | u in s.threads && s.threads[u].id !in gone :: u in s'.threads && s'.threads[u].id == s.threads[u].id
    ensures AllOwned(s')
  {
    hide IsReserved;
    forall id | id in s'.supervised && !IsReserved(s'.scanner, id)
      ensures exists u :: Owns(s', u, id)
    {
      var u :| Owns(s, u, id);
      assert Owns(s', u, id);
    }
  }

  lemma FewerThreads(threads: map<nat, Thread>, t: nat)
    requires OnePerThread(threads) && t in threads
    ensures OnePerThread(threads - {t})
    ensures forall u | u in threads - {t} :: (threads - {t})[u] == threads[u] && threads[u].id != threads[t].id
  {
  }

  lemma ReleaseKept(s: State, t: nat)
    requires Enabled(s, Release(t)) && OneOwnerEach(s)
    ensures OneOwnerEach(Step(s, Release(t)))
  {
    var s' := Step(s, Release(t));
    var id := s.threads[t].id;
    assert s'.supervised == s.supervised - {id} && s'.scanner == s.scanner;
    assert s'.threads == s.threads - {t} && t in s.threads;
    assert id in s.supervised && !IsReserved(s.scanner, id);
    hide Step, Enabled, OnePerThread, AllOwned, IsReserved;
    FewerThreads(s.threads, t);
    SizesOf(s.threads, t, s.threads[t]);
    OwnedByTheOthers(s, s', {id});
  }

  lemma {:induction false} RunKeeps(s: State, actions: seq<Action>)
    requires ValidRun(s, actions) && OneOwnerEach(s) && ScannerOk(s)
    ensures OneOwnerEach(Run(s, actions)) && ScannerOk(Run(s, actions))
    decreases |actions|
  {
    if actions != [] {
      hide OneOwnerEach, ScannerOk, Step, Enabled;
      OwnersKept(s, actions[0]);
      ScannerKept(s, actions[0]);
      RunKeeps(Step(s, actions[0]), actions[1..]);
    }
  }

  /** At every moment of every run each supervised plugin has one reservation or one thread, and no other has any. */
  lemma NoneIsLaunchedTwice(actions: seq<Action>)
    requires ValidRun(INITIAL, actions)
    ensures OneOwnerEach(Run(INITIAL, actions))
  {
    RunKeeps(INITIAL, actions);
  }

  /** When a scan is over it has launched, each once and in its order, the plugins it set out to launch. */
  lemma ScanLaunchesAll(actions: seq<Action>)
    requires ValidRun(INITIAL, actions) && Enabled(Run(INITIAL, actions), FinishScan)
    ensures var s := Run(INITIAL, actions);
      |s.scanner.all| <= |s.launched| && s.launched[|s.launched| - |s.scanner.all|..] == s.scanner.all
  {
    RunKeeps(INITIAL, actions);
    var s := Run(INITIAL, actions);
    hide Run, ValidRun, OneOwnerEach;
    assert s.scanner.all[..s.scanner.k] == s.scanner.all;
  }

  /**
   A thread that ends gives its plugin back: nothing owns the id any more, and a scan that filters then chooses
   it if it is eligible.
   */
  lemma ReleasedCanReturn(actions: seq<Action>, t: nat, store: Store, all: seq<string>)
    requires ValidRun(INITIAL, actions) && Enabled(Run(INITIAL, actions), Release(t))
    requires ToLaunch(store, Step(Run(INITIAL, actions), Release(t)).supervised, all)
    ensures var (s, id) := (Step(Run(INITIAL, actions), Release(t)), Run(INITIAL, actions).threads[t].id);
      && id !in s.supervised && !IsReserved(s.scanner, id) && (forall u :: !Owns(s, u, id))
      && (id in all <==> id in store && store[id].autoLaunch && !store[id].revoked)
  {
    RunKeeps(INITIAL, actions);
    var s := Run(INITIAL, actions);
    hide Run, ValidRun;
    FewerThreads(s.threads, t);
  }

  /** One scan with nothing going on beside it: the shared set and the list of threads, as the scan changes them. */
  class Launcher {
    var supervised: set<string>
    var threads: seq<Manifest>

    constructor ()
      ensures supervised == {} && threads == []
    {
      supervised, threads := {}, [];
    }

    /** The plugins launched by this scan are the threads added to the list. */
    method ScanAndSpawn(store: Option<Store>) returns (count: nat)
      requires store.Some? ==> KeyedById(store.value)
      modifies this
      ensures |threads| == |old(threads)| + count && threads[..|old(threads)|] == old(threads)
      ensures var added := threads[|old(threads)|..];
        && supervised == old(supervised) + (set id | id in Ids(added))
        && (store.None? ==> added == [])
        && (store.Some? ==> IsChoice(store.value, old(supervised), added))
    {
      if store.None? {
        return 0;
      }
      var toLaunch := Choose(store.value, supervised);
      var ids := Ids(toLaunch);
      var i := 0;
      while i < |toLaunch|
        invariant 0 <= i <= |toLaunch|
        invariant supervised == old(supervised) + (set id | id in ids[..i])
        invariant threads == old(threads) + toLaunch[..i]
      {
        supervised := supervised + {toLaunch[i].pluginId};
        threads := threads + [toLaunch[i]];
        assert ids[..i + 1] == ids[..i] + [ids[i]];
        i := i + 1;
      }
      assert ids[..i] == ids && toLaunch[..i] == toLaunch;
      assert threads[|old(threads)|..] == toLaunch;
      return |toLaunch|;
    }

    static method Choose(store: Store, supervised: set<string>) returns (chosen: seq<Manifest>)
      requires KeyedById(store)
      ensures IsChoice(store, supervised, chosen)
    {
      chosen := [];
      var left := store.Keys;
      while left != {}
        invariant left <= store.Keys && AllFrom(store, chosen) && Once(Ids(chosen))
        invariant forall id :: id in Ids(chosen) <==>
          id in store && id !in left && Eligible(store[id]) && id !in supervised
        decreases |left|
      {
        var id :| id in left;
        left := left - {id};
        if Eligible(store[id]) && id !in supervised {
          assert Ids(chosen + [store[id]]) == Ids(chosen) + [id];
          chosen := chosen + [store[id]];
        }
      }
    }
  }

  function Ids(manifests: seq<Manifest>): (r: seq<string>)
    ensures |r| == |manifests| && forall i | 0 <= i < |r| :: r[i] == manifests[i].pluginId
  {
    seq(|manifests|, i requires 0 <= i < |manifests| => manifests[i].pluginId)
  }

  predicate AllFrom(store: Store, manifests: seq<Manifest>) {
    forall m | m in manifests :: m.pluginId in store && store[m.pluginId] == m
  }

  /** Manifests of the store, exactly the eligible ones that are not supervised, each once. */
  ghost predicate IsChoice(store: Store, supervised: set<string>, chosen: seq<Manifest>) {
    AllFrom(store, chosen) && ToLaunch(store, supervised, Ids(chosen))
  }
}
