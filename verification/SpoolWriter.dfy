/**
 The spool in the form the code has it: a handle with counters, a writer loop that owns an active file, and
 the rotation and sealing it does (src/spool/writer.rs, src/spool/file.rs). Every method is proved to do
 what the step function of module Spool does.
 */
module SpoolWriter {
  import opened Options
  import opened Sorting
  import opened BatchNames
  import opened Eviction
  import Spool

  /** The append-only file being written, with its running byte count. */
  class ActiveFile {
    var lines: seq<Line>
    var bytesWritten: nat

    ghost predicate Valid()
      reads this
    {
      bytesWritten == Spool.Bytes(lines)
    }

    constructor ()
      ensures Valid() && lines == []
    {
      lines, bytesWritten := [], 0;
    }

    method WriteLine(line: Line, ok: bool) returns (written: bool)
      requires Valid()
      modifies this
      ensures Valid() && written == ok
      ensures lines == if ok then old(lines) + [line] else old(lines)
    {
      if !ok {
        return false;
      }
      lines := lines + [line];
      bytesWritten := bytesWritten + |line|;
      assert lines[..|lines| - 1] == old(lines);
      written := true;
    }
  }

  class Writer {
    const cfg: Spool.Config
    var queue: seq<Line>
    var sendersOpen: bool
    var phase: Spool.Phase
    var active: ActiveFile?
    var disk: Directory
    var eventsWritten: nat
    var eventsDropped: nat
    var batchesSealed: nat
    var batchesEvicted: nat
    ghost var model: Spool.State

    /** `model` is the state these fields hold. */
    ghost predicate Valid()
      reads this, active
    {
      && (active == null <==> model.active == None)
      && (active != null ==> active.Valid() && model.active == Some(active.lines))
      && model.queue == queue && model.sendersOpen == sendersOpen && model.phase == phase && model.disk == disk
      && model.eventsWritten == eventsWritten && model.eventsDropped == eventsDropped
      && model.batchesSealed == batchesSealed && model.batchesEvicted == batchesEvicted
      && Spool.DirectoryOk(disk)
    }

    constructor (cfg: Spool.Config, leftover: Directory)
      requires Spool.DirectoryOk(leftover)
      ensures Valid() && this.cfg == cfg && model == Spool.Initial(leftover)
    {
      this.cfg := cfg;
      queue, sendersOpen, phase, active, disk := [], true, Spool.Starting, null, leftover;
      eventsWritten, eventsDropped, batchesSealed, batchesEvicted := 0, 0, 0, 0;
      model := Spool.Initial(leftover);
    }

    /** Never waits: a full or closed channel drops the line and counts it. */
    method TrySubmit(line: Line) returns (accepted: bool)
      requires Valid()
      modifies this
      ensures Valid() && active == old(active)
      ensures model == Spool.TrySubmit(cfg, old(model), line)
      ensures accepted <==> old(phase != Spool.Exited && |queue| < cfg.channelCapacity)
    {
      model := Spool.TrySubmit(cfg, model, line);
      if phase != Spool.Exited && |queue| < cfg.channelCapacity {
        queue := queue + [line];
        return true;
      }
      eventsDropped := eventsDropped + 1;
      accepted := false;
    }

    /** The compressed batch appears under its name, and the cap is enforced. */
    method StoreBatch(name: string, file: File, removable: set<string>)
      requires Spool.DirectoryOk(disk) && IsBatchName(name)
      modifies this`disk, this`batchesEvicted
      ensures Spool.DirectoryOk(disk)
      ensures var full := Spool.Put(name, file, old(disk));
              && disk == AfterCap(full, cfg.maxTotalBytes, removable)
              && |disk| <= |full| && batchesEvicted == old(batchesEvicted) + |full| - |disk|
    {
      hide Spool.Put, AfterCap;
      var full := Spool.Put(name, file, disk);
      Spool.PutOk(name, file, disk);
      Spool.CapOfDirectory(full, full, cfg.maxTotalBytes, removable);
      Spool.AllAreBatches(full);
      var kept, total, evicted := EnforceTotalSizeCap(full, cfg.maxTotalBytes, removable);
      Spool.CapOk(full, cfg.maxTotalBytes, removable);
      disk := kept;
      batchesEvicted := batchesEvicted + evicted;
    }

    /** Flush, rename, compress, unlink and enforce the cap. The active file is gone whatever happens. */
    method SealActiveFile(ts: nat, sealing: Spool.Sealing) returns (ok: bool)
      requires Valid() && active != null
      modifies this
      ensures Valid() && active == null && ok == sealing.Done?
      ensures model == Spool.SealActive(cfg, old(model), ts, sealing)
    {
      hide Spool.Put, AfterCap, Spool.DirectoryOk, BatchName;
      var lines := active.lines;
      var name := BatchName(ts, batchesSealed);
      Spool.BatchNamesAreBatchNames(ts, batchesSealed);
      model := Spool.SealActive(cfg, model, ts, sealing);
      active := null;
      ok := sealing.Done?;
      if sealing != Spool.FlushFailed {
        batchesSealed := batchesSealed + 1;
        if sealing.Done? {
          StoreBatch(name, File(lines, sealing.size), sealing.removable);
        } else if sealing.CompressFailed? && sealing.partial.Some? {
          Spool.PutOk(name, sealing.partial.value, disk);
          disk := Spool.Put(name, sealing.partial.value, disk);
        }
      }
    }

    method Rotate(ts: nat, sealing: Spool.Sealing, reopenOk: bool)
      requires Valid() && active != null
      modifies this
      ensures Valid() && (active == null || fresh(active))
      ensures model == Spool.Rotate(cfg, old(model), ts, sealing, reopenOk)
    {
      hide Spool.SealActive, Spool.DirectoryOk;
      var _ := SealActiveFile(ts, sealing);
      if reopenOk {
        active := new ActiveFile();
        model := model.(active := Some([]));
      } else {
        model := model.(faults := model.faults + 1);
      }
    }

    /** The three arms of the writer loop. */
    method OnLine(writeOk: bool, ts: nat, sealing: Spool.Sealing, reopenOk: bool)
      requires Valid() && queue != []
      modifies this, active
      ensures Valid() && (active == null || active == old(active) || fresh(active))
      ensures model == Spool.Received(cfg, old(model), writeOk, ts, sealing, reopenOk)
    {
      hide Spool.Rotate;
      ghost var before := model;
      var line := queue[0];
      queue := queue[1..];
      if active == null {
        eventsDropped := eventsDropped + 1;
        model := Spool.Lost(before);
        return;
      }
      var written := active.WriteLine(line, writeOk);
      if !written {
        eventsDropped := eventsDropped + 1;
        model := Spool.Lost(before);
        return;
      }
      eventsWritten := eventsWritten + 1;
      model := Spool.Written(before);
      if active.bytesWritten >= cfg.maxBytesPerFile {
        Rotate(ts, sealing, reopenOk);
      }
    }

    method OnTimeout(ts: nat, sealing: Spool.Sealing, reopenOk: bool)
      requires Valid() && Spool.Enabled(model, Spool.Timeout(ts, sealing, reopenOk))
      modifies this
      ensures Valid() && (active == null || active == old(active) || fresh(active))
      ensures model == Spool.Step(cfg, old(model), Spool.Timeout(ts, sealing, reopenOk))
    {
      if active != null && active.bytesWritten > 0 {
        Rotate(ts, sealing, reopenOk);
      }
    }

    method OnDisconnected(ts: nat, sealing: Spool.Sealing)
      requires Valid() && Spool.Enabled(model, Spool.Disconnected(ts, sealing))
      modifies this
      ensures Valid() && active == null
      ensures model == Spool.Step(cfg, old(model), Spool.Disconnected(ts, sealing))
    {
      ghost var before := model;
      if active != null && active.bytesWritten > 0 {
        var _ := SealActiveFile(ts, sealing);
      } else {
        active := null;
      }
      phase := Spool.Exited;
      model := Spool.Step(cfg, before, Spool.Disconnected(ts, sealing));
    }

    method OnStart(ok: bool)
      requires Valid() && phase == Spool.Starting
      modifies this
      ensures Valid() && (active == null || active == old(active) || fresh(active))
      ensures model == Spool.Step(cfg, old(model), Spool.Start(ok))
    {
      model := Spool.Step(cfg, model, Spool.Start(ok));
      if ok {
        active := new ActiveFile();
        phase := Spool.Running;
      } else {
        queue := [];
        phase := Spool.Exited;
      }
    }

    /**
     The writer loop among its producers. `events` is any interleaving of submissions with what the
     receiver reports, and the methods together do exactly what the step function does.
     */
    method WriterMain(events: seq<Spool.Event>)
      requires Valid() && active == null && Spool.ValidRun(cfg, model, events)
      modifies this
      ensures Valid()
      ensures model == Spool.Run(cfg, old(model), events)
    {
      hide Spool.Step, Spool.Enabled;
      var i := 0;
      assert events[0..] == events;
      while i < |events|
        invariant 0 <= i <= |events|
        invariant Valid() && (active == null || fresh(active))
        invariant Spool.ValidRun(cfg, model, events[i..])
        invariant Spool.Run(cfg, model, events[i..]) == Spool.Run(cfg, old(model), events)
      {
        ghost var rest := events[i..];
        assert rest[0] == events[i] && rest[1..] == events[i + 1..];
        Handle(events[i]);
        i := i + 1;
      }
    }

    method Handle(e: Spool.Event)
      requires Valid() && Spool.Enabled(model, e)
      modifies this, active
      ensures Valid() && (active == null || active == old(active) || fresh(active))
      ensures model == Spool.Step(cfg, old(model), e)
    {
      match e {
        case Submit(line) =>
          var _ := TrySubmit(line);
        case CloseSenders =>
          sendersOpen := false;
          model := Spool.Step(cfg, model, e);
        case Start(ok) =>
          OnStart(ok);
        case Receive(writeOk, ts, sealing, reopenOk) =>
          OnLine(writeOk, ts, sealing, reopenOk);
        case Timeout(ts, sealing, reopenOk) =>
          OnTimeout(ts, sealing, reopenOk);
        case Disconnected(ts, sealing) =>
          OnDisconnected(ts, sealing);
      }
    }
  }
}
