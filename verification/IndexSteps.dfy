/**
  * Each step of the index protocol keeps the invariant, so every run does.
  *
  * The steps fall into three groups, in the order of this file. Steps of one process
  * that leave the disk alone (reads, snapshots, opens) need only their own process
  * looked at. Steps that write where nobody else looks (locks, temp files, rows, tables)
  * leave every path and every sealed inode as it was, so all other processes still
  * hold what they relied on. The two replaces put a finished temp file in place: they
  * extend the history of one half, or install a complete database, and touch no inode
  * another process has open.
  *
  * Mutual exclusion follows from the invariant and is what makes the re-read under the
  * lock still current when the replace comes.
  */
module IndexSteps {
  import opened Prelude
  import opened DerivedDb
  import opened Finders
  import opened IndexProtocol
  import opened IndexSafety

  // ---------------------------------------------------------------- steps that touch no file

  lemma SealedAreAllocated(d: Disk)
    requires DiskOk(d)
    ensures forall i :: i in d.sealed ==> i < d.next && i in d.files
  {
    forall i | i in d.sealed ensures i < d.next && i in d.files {
      assert SealedOk(d, i);
    }
  }

  lemma HistoryOkOf(d: Disk, h: Half)
    requires DiskOk(d)
    ensures HistoryOk(d, h)
  {
    match h
    case Published =>
    case Local =>
  }

  lemma CurrentIsVersion(d: Disk, h: Half, since: nat)
    requires DiskOk(d) && HasIndex(d, h)
    requires h in d.versions && since <= |d.versions[h]|
    ensures VersionSince(d, h, since, IndexContent(d, h))
    ensures d.dir[IndexFile(h)] in d.sealed
  {
    HistoryOkOf(d, h);
  }

  lemma ProcOkOf(w: World, pid: Pid)
    requires Inv(w) && pid in w.procs
    ensures ProcOk(w.disk, pid, w.procs[pid])
  {
  }

  lemma ProcOnlyStep(w: World, pid: Pid, p': Proc)
    requires Inv(w) && pid in w.procs
    requires ProcOk(w.disk, pid, p')
    requires Holds(p') == Holds(w.procs[pid])
    requires Temp(p') == Temp(w.procs[pid])
    ensures Inv(World(w.disk, w.procs[pid := p']))
  {
    StepKeepsInv(w, pid, w.disk, p');
  }

  lemma ReadIndexKeeps(w: World, a: Action)
    requires Inv(w) && Enabled(true, w, a) && a.ReadIndex?
    ensures Inv(Step(true, w, a))
  {
    var p, p' := w.procs[a.pid], ProcAfter(true, w, a);
    assert ProcOk(w.disk, a.pid, p);
    assert Holds(p') == map[p.half := p.lock] == Holds(p);
    ProcOnlyStep(w, a.pid, p');
  }

  lemma StartReadKeeps(w: World, a: Action)
    requires Inv(w) && Enabled(true, w, a) && a.StartRead?
    ensures Inv(Step(true, w, a))
  {
    assert ProcOk(w.disk, a.pid, w.procs[a.pid]);
    CurrentIsVersion(w.disk, a.half, |w.disk.versions[a.half]|);
    ProcOnlyStep(w, a.pid, ProcAfter(true, w, a));
  }

  lemma ReadRowKeeps(w: World, a: Action)
    requires Inv(w) && Enabled(true, w, a) && (a.ReadRow? || a.FinishRead? || a.StartBuild?)
    ensures Inv(Step(true, w, a))
  {
    ProcOkOf(w, a.pid);
    ProcOnlyStep(w, a.pid, ProcAfter(true, w, a));
  }

  lemma {:induction false} HalvesOfSnoc(snaps: seq<Snapshot>, s: Snapshot)
    ensures HalvesOf(snaps + [s]) == HalvesOf(snaps) + {s.half}
  {
    forall h ensures h in HalvesOf(snaps + [s]) <==> h in HalvesOf(snaps) + {s.half} {
      if h in HalvesOf(snaps) {
        var i :| 0 <= i < |snaps| && snaps[i].half == h;
        assert (snaps + [s])[i].half == h;
      }
      if h == s.half {
        assert (snaps + [s])[|snaps|].half == h;
      }
    }
  }

  lemma SnapshotProcOk(d: Disk, pid: Pid, p: Proc, h: Half, stat: Stat)
    requires ProcOk(d, pid, p) && p.Snapshotting? && HasIndex(d, h)
    requires NextWanted(p.want, p.locks.Keys).None? && NextWanted(p.want, HalvesOf(p.snaps)) == Some(h)
    ensures ProcOk(d, pid, Snapshotting(p.want, p.locks, p.snaps + [Snapshot(h, IndexContent(d, h), stat)]))
  {
    var s := Snapshot(h, IndexContent(d, h), stat);
    HalvesOfSnoc(p.snaps, s);
    assert forall k :: 0 <= k < |p.snaps| ==> p.snaps[k].half in HalvesOf(p.snaps);
    var p' := Snapshotting(p.want, p.locks, p.snaps + [s]);
    assert Holds(p') == p.locks == Holds(p);
    assert LocksOk(d, pid, p');
    assert InSourceOrder(p'.snaps);
    forall k | 0 <= k < |p'.snaps| ensures Current(d, p'.snaps[k].half, p'.snaps[k].content) {
      if k < |p.snaps| {
        assert p'.snaps[k] == p.snaps[k];
      }
    }
  }

  lemma SnapshotStepKeepsParts(w: World, pid: Pid, h: Half, stat: Stat)
    requires Inv(w) && pid in w.procs && w.procs[pid].Snapshotting? && HasIndex(w.disk, h)
    requires var p := w.procs[pid];
             NextWanted(p.want, p.locks.Keys).None? && NextWanted(p.want, HalvesOf(p.snaps)) == Some(h)
    ensures var p := w.procs[pid];
            Inv(World(w.disk, w.procs[pid := Snapshotting(p.want, p.locks, p.snaps + [Snapshot(h, IndexContent(w.disk, h), stat)])]))
  {
    var p := w.procs[pid];
    ProcOkOf(w, pid);
    SnapshotProcOk(w.disk, pid, p, h, stat);
    ProcOnlyStep(w, pid, Snapshotting(p.want, p.locks, p.snaps + [Snapshot(h, IndexContent(w.disk, h), stat)]));
  }

  lemma SnapshotStepKeeps(w: World, a: Action)
    requires Inv(w) && Enabled(true, w, a) && a.TakeSnapshot?
    ensures Inv(Step(true, w, a))
  {
    var p := w.procs[a.pid];
    SnapshotStepKeepsParts(w, a.pid, NextWanted(p.want, HalvesOf(p.snaps)).value, a.stat);
  }

  lemma StartOpenKeeps(w: World, a: Action)
    requires Inv(w) && Enabled(true, w, a) && a.StartOpen?
    ensures Inv(Step(true, w, a))
  {
    ProcOkOf(w, a.pid);
    ProcOnlyStep(w, a.pid, ProcAfter(true, w, a));
  }

  lemma AcceptKeeps(w: World, a: Action)
    requires Inv(w) && Enabled(true, w, a) && a.Accept?
    ensures Inv(Step(true, w, a))
  {
    var p := w.procs[a.pid];
    ProcOkOf(w, a.pid);
    AcceptedProcOk(w.disk, a.pid, p);
    ProcOnlyStep(w, a.pid, Opened(p.file, p.hashed, p.began));
  }

  lemma AcceptedProcOk(d: Disk, pid: Pid, p: Proc)
    requires ProcOk(d, pid, p) && p.Opening? && p.hashed.Keys == Present(d)
    requires p.file in d.files && d.files[p.file].Database? && Fresh(d.files[p.file].db, p.hashed)
    ensures ProcOk(d, pid, Opened(p.file, p.hashed, p.began))
  {
  }

  lemma OpenSourceKeeps(w: World, a: Action)
    requires Inv(w) && Enabled(true, w, a) && a.OpenSource?
    ensures Inv(Step(true, w, a))
  {
    var d, p := w.disk, w.procs[a.pid];
    assert ProcOk(d, a.pid, p);
    HistoryOkOf(d, a.half);
    CurrentIsVersion(d, a.half, p.began[a.half]);
    ProcOnlyStep(w, a.pid, ProcAfter(true, w, a));
  }

  lemma HashSourceKeeps(w: World, a: Action)
    requires Inv(w) && Enabled(true, w, a) && a.HashSource?
    ensures Inv(Step(true, w, a))
  {
    ProcOkOf(w, a.pid);
    ProcOnlyStep(w, a.pid, ProcAfter(true, w, a));
  }

  // ---------------------------------------------------------------- steps that move nothing into place

  /** Paths, what is in place and its history are as before. */
  ghost predicate NothingMoved(d: Disk, d': Disk) {
    && d'.dir == d.dir && d'.sealed == d.sealed && d'.ops == d.ops && d'.versions == d.versions
    && d.next <= d'.next
    && (forall i :: i in d.sealed ==> i in d'.files && i in d.files && d'.files[i] == d.files[i])
  }

  lemma NothingMovedKeepsDisk(d: Disk, d': Disk)
    requires DiskOk(d) && NothingMoved(d, d')
    ensures DiskOk(d') && Safe(d, d')
  {
    forall h ensures HistoryOk(d', h) {
      HistoryOkOf(d, h);
      if IndexFile(h) in d.dir {
        assert d.dir[IndexFile(h)] in d.sealed;
      }
    }
    forall i | i in d'.sealed ensures SealedOk(d', i) {
      assert SealedOk(d, i);
    }
  }

  /** Temp files and locks of the others, the only things such a step could disturb. */
  ghost predicate OthersTempsAndLocksKept(w: World, d': Disk, pid: Pid) {
    && (forall q :: q in w.procs && q != pid && Temp(w.procs[q]).Some? ==>
          var t := Temp(w.procs[q]).value;
          t in w.disk.files && t in d'.files && d'.files[t] == w.disk.files[t])
    && (forall i :: i in w.disk.flock && w.disk.flock[i] != pid ==> i in d'.flock && d'.flock[i] == w.disk.flock[i])
  }

  lemma NothingMovedLeavesAlone(w: World, d': Disk, pid: Pid)
    requires Inv(w) && NothingMoved(w.disk, d') && OthersTempsAndLocksKept(w, d', pid)
    ensures forall q :: q in w.procs && q != pid ==> LeavesAlone(w.disk, d', q, w.procs[q])
  {
    forall q | q in w.procs && q != pid ensures LeavesAlone(w.disk, d', q, w.procs[q]) {
      assert ProcOk(w.disk, q, w.procs[q]);
    }
  }

  lemma NothingMovedStep(w: World, pid: Pid, d': Disk, p': Proc)
    requires Inv(w) && pid in w.procs
    requires NothingMoved(w.disk, d') && OthersTempsAndLocksKept(w, d', pid)
    requires ProcOk(d', pid, p')
    requires Temp(p').Some? ==> Temp(p') == Temp(w.procs[pid]) || Temp(p').value >= w.disk.next
    requires forall i :: i in d'.flock ==>
               if d'.flock[i] == pid then i in Holds(p').Values
               else i in w.disk.flock && w.disk.flock[i] == d'.flock[i]
    ensures Inv(World(d', w.procs[pid := p']))
  {
    NothingMovedKeepsDisk(w.disk, d');
    NothingMovedLeavesAlone(w, d', pid);
    StepKeepsInv(w, pid, d', p');
  }

  lemma OtherTempsDiffer(w: World, pid: Pid, q: Pid)
    requires Inv(w) && pid in w.procs && q in w.procs && q != pid && Temp(w.procs[q]).Some?
    ensures Temp(w.procs[q]).value < w.disk.next && Temp(w.procs[q]).value in w.disk.files
    ensures Temp(w.procs[pid]).Some? ==> Temp(w.procs[pid]).value != Temp(w.procs[q]).value
  {
    assert ProcOk(w.disk, q, w.procs[q]);
  }

  lemma TakenLockProcOk(w: World, pid: Pid)
    requires Inv(w) && pid in w.procs && w.procs[pid].WantsLock?
    ensures var p := w.procs[pid];
            ProcOk(w.disk.(flock := w.disk.flock[p.lock := pid]), pid, HasLock(p.half, p.op, p.lock))
  {
    var p := w.procs[pid];
    assert ProcOk(w.disk, pid, p);
    TakenLockHeld(HasLock(p.half, p.op, p.lock));
  }

  lemma TakenLockHeld(p: Proc)
    requires p.HasLock?
    ensures Holds(p) == map[p.half := p.lock] && p.half in Holds(p) && p.lock in Holds(p).Values
  {
    assert Holds(p) == map[p.half := p.lock] && p.half in Holds(p);
  }

  lemma TakeLockKeeps(w: World, a: Action)
    requires Inv(w) && Enabled(true, w, a) && a.TakeLock?
    ensures Inv(Step(true, w, a))
  {
    var d', p' := DiskAfter(true, w, a), ProcAfter(true, w, a);
    TakenLockProcOk(w, a.pid);
    TakenLockHeld(p');
    forall q | q in w.procs && q != a.pid && Temp(w.procs[q]).Some?
      ensures Temp(w.procs[q]).value in w.disk.files
    {
      OtherTempsDiffer(w, a.pid, q);
    }
    NothingMovedStep(w, a.pid, d', p');
  }

  /** A new empty temp file, for a process that goes on holding what it held. */
  lemma NewTempKeeps(w: World, pid: Pid, p': Proc)
    requires Inv(w) && pid in w.procs && Holds(p') == Holds(w.procs[pid]) && Temp(p') == Some(w.disk.next)
    requires ProcOk(WithNewTemp(w.disk), pid, p')
    ensures Inv(World(WithNewTemp(w.disk), w.procs[pid := p']))
  {
    var d := w.disk;
    var d' := WithNewTemp(d);
    SealedAreAllocated(d);
    forall q | q in w.procs && q != pid && Temp(w.procs[q]).Some?
      ensures var t := Temp(w.procs[q]).value; t in d.files && t in d'.files && d'.files[t] == d.files[t]
    {
      OtherTempsDiffer(w, pid, q);
    }
    LocksAreOwned(w, pid);
    NothingMovedStep(w, pid, d', p');
  }

  lemma NewTempIsOk(d: Disk)
    requires DiskOk(d)
    ensures TempOk(WithNewTemp(d), d.next)
  {
    SealedAreAllocated(d);
  }

  lemma NewTempKeepsCurrent(d: Disk, h: Half, c: Content)
    requires DiskOk(d) && Current(d, h, c)
    ensures Current(WithNewTemp(d), h, c)
  {
    assert d.dir[IndexFile(h)] < d.next;
  }

  lemma MakeTempKeeps(w: World, a: Action)
    requires Inv(w) && Enabled(true, w, a) && a.MakeTemp?
    ensures Inv(Step(true, w, a))
  {
    var d, p, p' := w.disk, w.procs[a.pid], ProcAfter(true, w, a);
    assert ProcOk(d, a.pid, p);
    assert [] + p.op(p.snapshot) == p.op(p.snapshot);
    assert Holds(p') == map[p.half := p.lock] == Holds(p);
    NewTempIsOk(d);
    NewTempKeepsCurrent(d, p.half, p.snapshot);
    NewTempKeeps(w, a.pid, p');
  }

  lemma TempFileKeepsParts(w: World, pid: Pid, file: File, p': Proc)
    requires Inv(w) && pid in w.procs && Temp(w.procs[pid]).Some?
    requires var d' := w.disk.(files := w.disk.files[Temp(w.procs[pid]).value := file]); ProcOk(d', pid, p')
    requires Holds(p') == Holds(w.procs[pid]) && Temp(p') == Temp(w.procs[pid])
    ensures Inv(World(w.disk.(files := w.disk.files[Temp(w.procs[pid]).value := file]), w.procs[pid := p']))
  {
    var d := w.disk;
    var d' := d.(files := d.files[Temp(w.procs[pid]).value := file]);
    assert ProcOk(d, pid, w.procs[pid]);
    SealedAreAllocated(d);
    forall q | q in w.procs && q != pid && Temp(w.procs[q]).Some?
      ensures var t := Temp(w.procs[q]).value; t in d.files && t in d'.files && d'.files[t] == d.files[t]
    {
      OtherTempsDiffer(w, pid, q);
    }
    LocksAreOwned(w, pid);
    NothingMovedStep(w, pid, d', p');
  }

  lemma LocksAreOwned(w: World, pid: Pid)
    requires Inv(w) && pid in w.procs
    ensures forall i :: i in w.disk.flock && w.disk.flock[i] == pid ==> i in Holds(w.procs[pid]).Values
  {
  }

  lemma WrittenRowProcOk(d: Disk, pid: Pid, p: Proc)
    requires DiskOk(d) && ProcOk(d, pid, p) && p.Writing? && p.todo != []
    ensures ProcOk(WithRow(d, p.tmp, p.todo[0]), pid, p.(todo := p.todo[1..]))
  {
    var p' := p.(todo := p.todo[1..]);
    assert Holds(p') == Holds(p);
    assert d.files[p.tmp].content + [p.todo[0]] + p.todo[1..] == d.files[p.tmp].content + p.todo;
    assert d.dir[IndexFile(p.half)] in d.dir.Values;
  }

  lemma WriteRowKeeps(w: World, a: Action)
    requires Inv(w) && Enabled(true, w, a) && a.WriteRow?
    ensures Inv(Step(true, w, a))
  {
    var d, p := w.disk, w.procs[a.pid];
    ProcOkOf(w, a.pid);
    WrittenRowProcOk(d, a.pid, p);
    TempFileKeepsParts(w, a.pid, Rows(d.files[p.tmp].content + [p.todo[0]]), ProcAfter(true, w, a));
  }

  lemma FilledSourceProcOk(d: Disk, pid: Pid, p: Proc)
    requires ProcOk(d, pid, p) && p.Building? && p.filled < |p.snaps|
    ensures ProcOk(WithSource(d, p.tmp, p.snaps[p.filled], p.snaps),
                   pid, p.(filled := p.filled + 1))
  {
    var p' := p.(filled := p.filled + 1);
    assert Holds(p') == Holds(p);
    var next := p.snaps[..p.filled + 1];
    assert next[..p.filled] == p.snaps[..p.filled] && next[p.filled] == p.snaps[p.filled];
    assert Tables(next) == AddSource(Tables(p.snaps[..p.filled]), p.snaps[p.filled]);
  }

  lemma FillSourceKeepsParts(w: World, pid: Pid)
    requires Inv(w) && pid in w.procs && w.procs[pid].Building? && w.procs[pid].filled < |w.procs[pid].snaps|
    ensures var d, p := w.disk, w.procs[pid];
            && p.tmp in d.files && d.files[p.tmp].Database?
            && Inv(World(WithSource(d, p.tmp, p.snaps[p.filled], p.snaps), w.procs[pid := p.(filled := p.filled + 1)]))
  {
    var d, p := w.disk, w.procs[pid];
    ProcOkOf(w, pid);
    FilledSourceProcOk(d, pid, p);
    TempFileKeepsParts(w, pid, Database(AddSource(d.files[p.tmp].db, p.snaps[p.filled]), p.snaps), p.(filled := p.filled + 1));
  }

  lemma FillSourceKeeps(w: World, a: Action)
    requires Inv(w) && Enabled(true, w, a) && a.FillSource?
    ensures Inv(Step(true, w, a))
  {
    FillSourceKeepsParts(w, a.pid);
    FillSourceStep(w, a);
  }

  lemma FillSourceStep(w: World, a: Action)
    requires Enabled(true, w, a) && a.FillSource?
    ensures var d, p := w.disk, w.procs[a.pid];
            Step(true, w, a) == World(WithSource(d, p.tmp, p.snaps[p.filled], p.snaps), w.procs[a.pid := p.(filled := p.filled + 1)])
  {
  }

  lemma StopKeeps(w: World, a: Action)
    requires Inv(w) && Enabled(true, w, a) && a.Stop?
    ensures Inv(Step(true, w, a))
  {
    var d, d' := w.disk, DiskAfter(true, w, a);
    SealedAreAllocated(d);
    HeldLocksAreMine(w, a.pid);
    LocksAreOwned(w, a.pid);
    forall q | q in w.procs && q != a.pid && Temp(w.procs[q]).Some?
      ensures Temp(w.procs[q]).value in d.files
    {
      OtherTempsDiffer(w, a.pid, q);
    }
    NothingMovedStep(w, a.pid, d', Idle);
  }

  lemma HeldLocksAreMine(w: World, pid: Pid)
    requires Inv(w) && pid in w.procs
    ensures forall i :: i in Holds(w.procs[pid]).Values ==> i in w.disk.flock && w.disk.flock[i] == pid
  {
    var p := w.procs[pid];
    assert ProcOk(w.disk, pid, p);
    forall i | i in Holds(p).Values ensures i in w.disk.flock && w.disk.flock[i] == pid {
      var h :| h in Holds(p) && Holds(p)[h] == i;
    }
  }

  lemma StartedFillingProcOk(d: Disk, d': Disk, pid: Pid, p: Proc)
    requires DiskOk(d) && ProcOk(d, pid, p) && p.Snapshotting?
    requires d'.dir == d.dir && d'.sealed == d.sealed && d'.next == d.next + 1
    requires d'.files == d.files[d.next := Database(EMPTY, p.snaps)]
    ensures ProcOk(d', pid, Building(p.snaps, d.next, 0))
  {
    assert p.snaps[..0] == [];
    SealedAreAllocated(d);
  }

  lemma StartFillingKeepsParts(w: World, pid: Pid, d': Disk)
    requires Inv(w) && pid in w.procs && w.procs[pid].Snapshotting?
    requires var d, p := w.disk, w.procs[pid];
             d' == d.(flock := d.flock - Holds(p).Values, files := d.files[d.next := Database(EMPTY, p.snaps)], next := d.next + 1)
    ensures Inv(World(d', w.procs[pid := Building(w.procs[pid].snaps, w.disk.next, 0)]))
  {
    var d, p := w.disk, w.procs[pid];
    assert ProcOk(d', pid, Building(p.snaps, d.next, 0)) by {
      assert ProcOk(d, pid, p);
      StartedFillingProcOk(d, d', pid, p);
    }
    SealedAreAllocated(d);
    HeldLocksAreMine(w, pid);
    LocksAreOwned(w, pid);
    forall q | q in w.procs && q != pid && Temp(w.procs[q]).Some?
      ensures var t := Temp(w.procs[q]).value; t in d.files && t in d'.files && d'.files[t] == d.files[t]
    {
      OtherTempsDiffer(w, pid, q);
    }
    NothingMovedStep(w, pid, d', Building(p.snaps, d.next, 0));
  }

  lemma StartFillingKeeps(w: World, a: Action)
    requires Inv(w) && Enabled(true, w, a) && a.StartFilling?
    ensures Inv(Step(true, w, a))
  {
    StartFillingKeepsParts(w, a.pid, DiskAfter(true, w, a));
  }

  // ---------------------------------------------------------------- steps that put something into place

  lemma HistoryStays(d: Disk, d': Disk, h: Half)
    requires HistoryOk(d, h)
    requires IndexFile(h) in d.dir <==> IndexFile(h) in d'.dir
    requires IndexFile(h) in d.dir ==>
               var i := d.dir[IndexFile(h)];
               d'.dir[IndexFile(h)] == i && i in d'.files && i in d.files && d'.files[i] == d.files[i]
    requires h in d'.versions && h in d'.ops && h in d.versions && h in d.ops
    requires d'.versions[h] == d.versions[h] && d'.ops[h] == d.ops[h]
    ensures HistoryOk(d', h)
  {
  }

  lemma SealedStays(d: Disk, d': Disk)
    requires forall i :: i in d.sealed ==> SealedOk(d, i)
    requires d.next <= d'.next
    requires forall i :: i in d.sealed ==> i in d.files && i in d'.files && d'.files[i] == d.files[i]
    ensures forall i :: i in d.sealed ==> SealedOk(d', i)
  {
    forall i | i in d.sealed ensures SealedOk(d', i) {
      assert SealedOk(d, i);
    }
  }

  lemma LockFileKeepsDiskOk(d: Disk, h: Half)
    requires DiskOk(d) && LockFile(h) !in d.dir
    ensures DiskOk(WithLockFile(true, d, h))
  {
    var d' := WithLockFile(true, d, h);
    SealedAreAllocated(d);
    SealedStays(d, d');
    forall g ensures HistoryOk(d', g) {
      HistoryOkOf(d, g);
      HistoryStays(d, d', g);
    }
  }

  lemma LockFileIsSafe(d: Disk, h: Half)
    requires DiskOk(d) && LockFile(h) !in d.dir
    ensures Safe(d, WithLockFile(true, d, h))
  {
    SealedAreAllocated(d);
    var d' := WithLockFile(true, d, h);
    assert forall g :: IndexFile(g) in d'.dir <==> IndexFile(g) in d.dir;
  }

  /** A lock file is created once, beside the index, and no step ever replaces it. */
  lemma LockFileKeepsDisk(d: Disk, h: Half)
    requires DiskOk(d)
    ensures var d' := WithLockFile(true, d, h);
            && DiskOk(d') && Safe(d, d')
            && LockFile(h) in d'.dir && d'.dir[LockFile(h)] == LockInode(true, d, h)
            && (forall p :: p in d.dir ==> p in d'.dir && d'.dir[p] == d.dir[p])
            && d'.dir.Values <= d.dir.Values + {d.next}
            && d'.flock == d.flock && d'.sealed == d.sealed
            && (forall i :: i in d.files && i < d.next ==> i in d'.files && d'.files[i] == d.files[i])
  {
    if LockFile(h) !in d.dir {
      LockFileKeepsDiskOk(d, h);
      LockFileIsSafe(d, h);
    } else {
      SealedAreAllocated(d);
    }
  }

  lemma LockFileLeavesAlone(w: World, h: Half)
    requires Inv(w)
    ensures forall q :: q in w.procs ==> LeavesAlone(w.disk, WithLockFile(true, w.disk, h), q, w.procs[q])
  {
    LockFileKeepsDisk(w.disk, h);
    forall q | q in w.procs ensures LeavesAlone(w.disk, WithLockFile(true, w.disk, h), q, w.procs[q]) {
      assert ProcOk(w.disk, q, w.procs[q]);
    }
  }

  lemma OpenLockKeeps(w: World, a: Action)
    requires Inv(w) && Enabled(true, w, a) && a.OpenLock?
    ensures Inv(Step(true, w, a))
  {
    LockFileKeepsDisk(w.disk, a.half);
    LockFileLeavesAlone(w, a.half);
    StepKeepsInv(w, a.pid, DiskAfter(true, w, a), ProcAfter(true, w, a));
  }

  /** With the lock file there, a builder's turn at a lock changes only the lock table. */
  lemma TakeBuildLockProcOk(d: Disk, d': Disk, pid: Pid, p: Proc, h: Half)
    requires ProcOk(d, pid, p) && p.Snapshotting? && p.snaps == [] && NextWanted(p.want, p.locks.Keys) == Some(h)
    requires forall q :: q in d.dir && q.LockFile? ==> q in d'.dir && d'.dir[q] == d.dir[q]
    requires LockFile(h) in d'.dir
    requires d'.flock == d.flock[d'.dir[LockFile(h)] := pid]
    ensures ProcOk(d', pid, Snapshotting(p.want, p.locks[h := d'.dir[LockFile(h)]], p.snaps))
  {
    var p' := Snapshotting(p.want, p.locks[h := d'.dir[LockFile(h)]], p.snaps);
    forall g | g in Holds(p')
      ensures LockFile(g) in d'.dir && Holds(p')[g] == d'.dir[LockFile(g)]
              && Holds(p')[g] in d'.flock && d'.flock[Holds(p')[g]] == pid
    {
      if g != h {
        assert g in Holds(p);
      }
    }
  }

  lemma TakenLockLeavesAlone(w: World, d1: Disk, d': Disk, pid: Pid, i: Inode)
    requires Inv(w)
    requires forall q :: q in w.procs && q != pid ==> LeavesAlone(w.disk, d1, q, w.procs[q])
    requires i !in w.disk.flock && d1.flock == w.disk.flock && d' == d1.(flock := d1.flock[i := pid])
    ensures forall q :: q in w.procs && q != pid ==> LeavesAlone(w.disk, d', q, w.procs[q])
  {
    forall q | q in w.procs && q != pid ensures LeavesAlone(w.disk, d', q, w.procs[q]) {
      assert LeavesAlone(w.disk, d1, q, w.procs[q]);
    }
  }

  lemma AddedLockIsHeld(locks: map<Half, Inode>, h: Half, i: Inode)
    requires h !in locks
    ensures locks[h := i].Values == locks.Values + {i}
  {
    var more := locks[h := i];
    forall j ensures j in more.Values <==> j in locks.Values + {i} {
      if j in locks.Values {
        var g :| g in locks && locks[g] == j;
        assert g in more && more[g] == j;
      }
      if j == i {
        assert h in more && more[h] == j;
      }
    }
  }

  lemma SafeTrans(d: Disk, d1: Disk, d': Disk)
    requires Safe(d, d1) && Safe(d1, d')
    ensures Safe(d, d')
  {
  }

  lemma TakenLockKeepsDisk(d: Disk, h: Half, i: Inode, pid: Pid)
    requires DiskOk(d) && i == LockInode(true, d, h) && i !in d.flock
    ensures var d' := WithLockFile(true, d, h).(flock := d.flock[i := pid]);
            && DiskOk(d') && Safe(d, d')
            && LockFile(h) in d'.dir && d'.dir[LockFile(h)] == i
            && (forall q :: q in d.dir && q.LockFile? ==> q in d'.dir && d'.dir[q] == d.dir[q])
  {
    LockFileKeepsDisk(d, h);
    var d1 := WithLockFile(true, d, h);
    var d' := d1.(flock := d.flock[i := pid]);
    SealedAreAllocated(d1);
    NothingMovedKeepsDisk(d1, d');
    SafeTrans(d, d1, d');
  }

  lemma TakeBuildLockKeepsParts(w: World, pid: Pid, h: Half, i: Inode)
    requires Inv(w) && pid in w.procs
    requires var p := w.procs[pid]; p.Snapshotting? && p.snaps == [] && NextWanted(p.want, p.locks.Keys) == Some(h)
    requires i == LockInode(true, w.disk, h) && i !in w.disk.flock
    ensures Inv(World(WithLockFile(true, w.disk, h).(flock := w.disk.flock[i := pid]),
                      w.procs[pid := w.procs[pid].(locks := w.procs[pid].locks[h := i])]))
  {
    var d, p := w.disk, w.procs[pid];
    var d' := WithLockFile(true, d, h).(flock := d.flock[i := pid]);
    var p' := p.(locks := p.locks[h := i]);
    TakeBuildLockOwn(w, pid, h, i);
    TakeBuildLockOthers(w, pid, h, i);
    OwnedAfterTaking(w, pid, h, i);
    StepKeepsInv(w, pid, d', p');
  }

  lemma TakeBuildLockOwn(w: World, pid: Pid, h: Half, i: Inode)
    requires Inv(w) && pid in w.procs
    requires var p := w.procs[pid]; p.Snapshotting? && p.snaps == [] && NextWanted(p.want, p.locks.Keys) == Some(h)
    requires i == LockInode(true, w.disk, h) && i !in w.disk.flock
    ensures var d' := WithLockFile(true, w.disk, h).(flock := w.disk.flock[i := pid]);
            DiskOk(d') && Safe(w.disk, d') && ProcOk(d', pid, w.procs[pid].(locks := w.procs[pid].locks[h := i]))
  {
    var d, p := w.disk, w.procs[pid];
    TakenLockKeepsDisk(d, h, i, pid);
    assert ProcOk(d, pid, p);
    TakeBuildLockProcOk(d, WithLockFile(true, d, h).(flock := d.flock[i := pid]), pid, p, h);
  }

  lemma TakeBuildLockOthers(w: World, pid: Pid, h: Half, i: Inode)
    requires Inv(w) && i == LockInode(true, w.disk, h) && i !in w.disk.flock
    ensures var d' := WithLockFile(true, w.disk, h).(flock := w.disk.flock[i := pid]);
            forall q :: q in w.procs && q != pid ==> LeavesAlone(w.disk, d', q, w.procs[q])
  {
    var d' := WithLockFile(true, w.disk, h).(flock := w.disk.flock[i := pid]);
    LockFileKeepsDisk(w.disk, h);
    LockFileLeavesAlone(w, h);
    TakenLockLeavesAlone(w, WithLockFile(true, w.disk, h), d', pid, i);
  }

  lemma TakeBuildLockKeeps(w: World, a: Action)
    requires Inv(w) && Enabled(true, w, a) && a.TakeBuildLock?
    ensures Inv(Step(true, w, a))
  {
    var p := w.procs[a.pid];
    var h := NextWanted(p.want, p.locks.Keys).value;
    TakeBuildLockKeepsParts(w, a.pid, h, LockInode(true, w.disk, h));
  }

  lemma OwnedAfterTaking(w: World, pid: Pid, h: Half, i: Inode)
    requires Inv(w) && pid in w.procs && w.procs[pid].Snapshotting? && h !in w.procs[pid].locks
    ensures var p' := w.procs[pid].(locks := w.procs[pid].locks[h := i]);
            forall j :: j in w.disk.flock[i := pid] ==>
              if w.disk.flock[i := pid][j] == pid then j in Holds(p').Values
              else j in w.disk.flock && w.disk.flock[j] == w.disk.flock[i := pid][j]
  {
    AddedLockIsHeld(w.procs[pid].locks, h, i);
  }

  // ---------------------------------------------------------------- moving rows from half to half

  lemma StartedMoverOk(d: Disk, p: Proc, pid: Pid, move: Move)
    requires DiskOk(d) && ProcOk(d, pid, p) && p.Snapshotting? && p.want == {Published, Local} && |p.snaps| == 2
    requires NextWanted(p.want, p.locks.Keys).None?
    ensures var pub := p.snaps[0].content;
            MoverOk(WithNewTemp(d), Moving(move, p.locks, pub, p.snaps[1].content, Published, d.next, move.publish(pub)))
  {
    var pub, loc := p.snaps[0].content, p.snaps[1].content;
    assert [] + move.publish(pub) == move.publish(pub);
    WantedIsHeld(p.want, p.locks.Keys, Published);
    WantedIsHeld(p.want, p.locks.Keys, Local);
    assert Current(d, p.snaps[0].half, pub) && Current(d, p.snaps[1].half, loc);
    NewTempKeepsCurrent(d, Published, pub);
    NewTempKeepsCurrent(d, Local, loc);
  }

  lemma StartedMoveOk(d: Disk, pid: Pid, p: Proc, move: Move)
    requires DiskOk(d) && ProcOk(d, pid, p) && p.Snapshotting? && p.want == {Published, Local} && |p.snaps| == 2
    requires NextWanted(p.want, p.locks.Keys).None?
    ensures var pub := p.snaps[0].content;
            var p' := Publishing(Moving(move, p.locks, pub, p.snaps[1].content, Published, d.next, move.publish(pub)));
            ProcOk(WithNewTemp(d), pid, p') && Holds(p') == Holds(p) && Temp(p') == Some(d.next)
  {
    var pub := p.snaps[0].content;
    var p' := Publishing(Moving(move, p.locks, pub, p.snaps[1].content, Published, d.next, move.publish(pub)));
    StartedMoverOk(d, p, pid, move);
    NewTempIsOk(d);
    SameLocksOk(d, WithNewTemp(d), pid, p, p');
  }

  lemma StartMoveKeeps(w: World, a: Action)
    requires Inv(w) && Enabled(true, w, a) && a.StartMove?
    ensures Inv(Step(true, w, a))
  {
    ProcOkOf(w, a.pid);
    StartedMoveOk(w.disk, a.pid, w.procs[a.pid], a.move);
    NewTempKeeps(w, a.pid, ProcAfter(true, w, a));
  }

  /** A mover that writes a row or opens its second temp file leaves both halves as they are. */
  lemma MovedOnOk(d: Disk, m: Mover)
    requires DiskOk(d) && MoverOk(d, m) && CanMoveOn(d, m) && (m.Moving? ==> m.left != [] && TempOk(d, m.tmp))
    ensures MoverOk(DiskMovedOn(d, m), MovedOn(d, m))
  {
    match m
    case Moving(move, _, pub, loc, half, tmp, left) =>
      assert d.files[tmp].content + [left[0]] + left[1..] == d.files[tmp].content + left;
      assert d.dir[IndexFile(Published)] in d.dir.Values && d.dir[IndexFile(Local)] in d.dir.Values;
    case HalfMoved(move, _, pub, loc) =>
      assert [] + move.drop(loc) == move.drop(loc);
      NewTempKeepsCurrent(d, Published, move.publish(pub));
      NewTempKeepsCurrent(d, Local, loc);
  }

  lemma MoverReplacesOk(d: Disk, m: Mover)
    requires DiskOk(d) && MoverOk(d, m) && CanMoveOn(d, m) && m.Moving? && m.left == [] && TempOk(d, m.tmp)
    ensures d.files[m.tmp] == Rows(m.Op()(m.From())) && Current(d, m.half, m.From())
    ensures MoverOk(DiskMovedOn(d, m), MovedOn(d, m))
  {
    assert d.files[m.tmp].content + m.left == d.files[m.tmp].content;
  }

  lemma SameLocksOk(d: Disk, d': Disk, pid: Pid, p: Proc, p': Proc)
    requires LocksOk(d, pid, p) && Holds(p') == Holds(p) && !p'.WantsLock? && d'.flock == d.flock
    requires forall q :: q in d.dir && q.LockFile? ==> q in d'.dir && d'.dir[q] == d.dir[q]
    ensures LocksOk(d', pid, p')
  {
  }

  /** What a mover's next step leaves it with, whatever the others do. */
  lemma MoverStepOk(d: Disk, pid: Pid, m: Mover)
    requires DiskOk(d) && ProcOk(d, pid, Publishing(m)) && CanMoveOn(d, m)
    ensures var d', p, p' := DiskMovedOn(d, m), Publishing(m), Publishing(MovedOn(d, m));
            ProcOk(d', pid, p') && Holds(p') == Holds(p) && d'.flock == d.flock
  {
    var p' := Publishing(MovedOn(d, m));
    MoverTemps(d, m);
    assert MoverOk(DiskMovedOn(d, m), MovedOn(d, m)) by {
      if m.Moving? && m.left == [] {
        MoverReplacesOk(d, m);
      } else {
        MovedOnOk(d, m);
      }
    }
    NewTempIsOk(d);
    SameLocksOk(d, DiskMovedOn(d, m), pid, Publishing(m), p');
  }

  /** The temp file a mover has next: the same while it writes, a new one for the second half, none after a replace. */
  lemma MoverTemps(d: Disk, m: Mover)
    requires CanMoveOn(d, m)
    ensures Temp(Publishing(MovedOn(d, m)))
         == if m.HalfMoved? then Some(d.next) else if m.left != [] then Temp(Publishing(m)) else None
  {
  }

  lemma MoverReplacesKeeps(w: World, pid: Pid, m: Mover)
    requires Inv(w) && pid in w.procs && w.procs[pid] == Publishing(m) && m.Moving? && m.left == [] && CanMoveOn(w.disk, m)
    ensures Inv(World(DiskMovedOn(w.disk, m), w.procs[pid := Publishing(MovedOn(w.disk, m))]))
  {
    var d, d' := w.disk, DiskMovedOn(w.disk, m);
    ProcOkOf(w, pid);
    MoverStepOk(d, pid, m);
    MoverTemps(d, m);
    MoverReplacesOk(d, m);
    ReplaceKeepsDisk(d, m.half, m.Op(), m.From(), m.tmp);
    ReplaceLeavesAlone(w, d', pid, IndexFile(m.half));
    LocksAreOwned(w, pid);
    StepKeepsInv(w, pid, d', Publishing(MovedOn(d, m)));
  }

  lemma MoveOnKeeps(w: World, a: Action)
    requires Inv(w) && Enabled(true, w, a) && a.MoveOn?
    ensures Inv(Step(true, w, a))
  {
    var d, m := w.disk, w.procs[a.pid].mover;
    if m.Moving? && m.left == [] {
      MoverReplacesKeeps(w, a.pid, m);
    } else {
      ProcOkOf(w, a.pid);
      MoverStepOk(d, a.pid, m);
      MoverTemps(d, m);
      if m.HalfMoved? {
        NewTempKeeps(w, a.pid, Publishing(MovedOn(d, m)));
      } else {
        TempFileKeepsParts(w, a.pid, Rows(d.files[m.tmp].content + [m.left[0]]), Publishing(MovedOn(d, m)));
      }
    }
  }

  // ---------------------------------------------------------------- what is put in place

  /** Two processes never hold the lock of the same half. */
  lemma Exclusion(w: World, a: Pid, b: Pid, h: Half)
    requires Inv(w)
    requires a in w.procs && b in w.procs && h in Holds(w.procs[a]) && h in Holds(w.procs[b])
    ensures a == b
  {
    assert ProcOk(w.disk, a, w.procs[a]) && ProcOk(w.disk, b, w.procs[b]);
  }

  lemma PutInPlace(dir: map<Path, Inode>, sealed: set<Inode>, next: Inode, path: Path, i: Inode)
    requires DirOk(dir, sealed, next) && !path.LockFile?
    requires i < next && i !in sealed && i !in dir.Values
    ensures DirOk(dir[path := i], sealed + {i}, next)
  {
  }

  lemma GrownHistoryOk(d: Disk, h: Half, op: Op, snapshot: Content, tmp: Inode)
    requires HistoryOk(d, h) && Current(d, h, snapshot) && tmp in d.files && d.files[tmp] == Rows(op(snapshot))
    ensures HistoryOk(InPlace(d, h, op, tmp), h)
  {
    var d', n := InPlace(d, h, op, tmp), |d.ops[h]|;
    assert d'.versions[h][n + 1] == op(d.versions[h][n]);
  }

  /** The index after a replace: one more version, got from the last by the writer's transformation. */
  lemma ReplaceKeepsDisk(d: Disk, h: Half, op: Op, snapshot: Content, tmp: Inode)
    requires DiskOk(d) && TempOk(d, tmp) && Current(d, h, snapshot) && h in d.versions && h in d.ops
    requires d.files[tmp] == Rows(op(snapshot))
    ensures DiskOk(InPlace(d, h, op, tmp)) && Safe(d, InPlace(d, h, op, tmp))
  {
    var d' := InPlace(d, h, op, tmp);
    HistoryOkOf(d, h);
    PutInPlace(d.dir, d.sealed, d.next, IndexFile(h), tmp);
    SealedAreAllocated(d);
    SealedStays(d, d');
    forall g ensures HistoryOk(d', g) {
      HistoryOkOf(d, g);
      if g == h {
        GrownHistoryOk(d, h, op, snapshot, tmp);
      } else {
        HistoryStays(d, d', g);
      }
    }
    assert SealedOk(d', tmp);
    ReplaceIsSafe(d, d', h, tmp);
  }

  lemma ReplaceIsSafe(d: Disk, d': Disk, h: Half, tmp: Inode)
    requires DiskOk(d) && IndexFile(h) in d.dir && h in d.versions && tmp in d.files
    requires d'.dir == d.dir[IndexFile(h) := tmp] && d'.sealed == d.sealed + {tmp}
    requires d'.files == d.files && d'.next == d.next
    requires exists c :: d'.versions == d.versions[h := d.versions[h] + [c]]
    ensures Safe(d, d')
  {
    SealedAreAllocated(d);
  }

  lemma ReplaceLeavesAlone(w: World, d': Disk, pid: Pid, path: Path)
    requires Inv(w) && pid in w.procs && Temp(w.procs[pid]).Some?
    requires path.IndexFile? ==> path.half in Holds(w.procs[pid])
    requires var t := Temp(w.procs[pid]).value;
             && d'.dir == w.disk.dir[path := t] && d'.sealed == w.disk.sealed + {t} && d'.flock == w.disk.flock
             && forall i :: i in w.disk.files && i != t ==> i in d'.files && d'.files[i] == w.disk.files[i]
    ensures forall q :: q in w.procs && q != pid ==> LeavesAlone(w.disk, d', q, w.procs[q])
  {
    forall q | q in w.procs && q != pid ensures LeavesAlone(w.disk, d', q, w.procs[q]) {
      if Temp(w.procs[q]).Some? {
        OtherTempStays(w, d', pid, path, q);
      }
      OtherIndexStays(w, d', pid, path, q);
    }
  }

  lemma OtherTempStays(w: World, d': Disk, pid: Pid, path: Path, q: Pid)
    requires Inv(w) && pid in w.procs && Temp(w.procs[pid]).Some? && q in w.procs && q != pid && Temp(w.procs[q]).Some?
    requires var t := Temp(w.procs[pid]).value;
             && d'.dir == w.disk.dir[path := t] && d'.sealed == w.disk.sealed + {t}
             && forall i :: i in w.disk.files && i != t ==> i in d'.files && d'.files[i] == w.disk.files[i]
    ensures var t := Temp(w.procs[q]).value;
            t in w.disk.files && t in d'.files && d'.files[t] == w.disk.files[t] && t !in d'.sealed && t !in d'.dir.Values
  {
    OtherTempsDiffer(w, pid, q);
    assert TempOk(w.disk, Temp(w.procs[q]).value) by {
      assert ProcOk(w.disk, q, w.procs[q]);
    }
  }

  lemma OtherIndexStays(w: World, d': Disk, pid: Pid, path: Path, q: Pid)
    requires Inv(w) && pid in w.procs && q in w.procs && q != pid && Temp(w.procs[pid]).Some?
    requires path.IndexFile? ==> path.half in Holds(w.procs[pid])
    requires d'.dir == w.disk.dir[path := Temp(w.procs[pid]).value]
    ensures forall h :: h in Holds(w.procs[q]) && IndexFile(h) in w.disk.dir ==>
              IndexFile(h) in d'.dir && d'.dir[IndexFile(h)] == w.disk.dir[IndexFile(h)]
  {
    forall h | h in Holds(w.procs[q]) && IndexFile(h) in w.disk.dir
      ensures IndexFile(h) in d'.dir && d'.dir[IndexFile(h)] == w.disk.dir[IndexFile(h)]
    {
      if path == IndexFile(h) {
        Exclusion(w, pid, q, h);
      }
    }
  }

  lemma ReplacedProcOk(d: Disk, pid: Pid, p: Proc)
    requires DiskOk(d) && ProcOk(d, pid, p) && p.Writing? && p.todo == [] && p.half in d.versions && p.half in d.ops
    ensures d.files[p.tmp] == Rows(p.op(p.snapshot))
    ensures ProcOk(InPlace(d, p.half, p.op, p.tmp), pid, Replaced(p.half, p.lock))
    ensures Holds(p) == Holds(Replaced(p.half, p.lock)) == map[p.half := p.lock]
  {
    assert d.files[p.tmp].content + p.todo == d.files[p.tmp].content;
    assert Holds(p) == map[p.half := p.lock] == Holds(Replaced(p.half, p.lock));
  }

  lemma ReplaceKeeps(w: World, a: Action)
    requires Inv(w) && Enabled(true, w, a) && a.Replace?
    ensures Inv(Step(true, w, a))
  {
    var d, p := w.disk, w.procs[a.pid];
    ProcOkOf(w, a.pid);
    ReplacedProcOk(d, a.pid, p);
    ReplaceKeepsDisk(d, p.half, p.op, p.snapshot, p.tmp);
    ReplaceLeavesAlone(w, InPlace(d, p.half, p.op, p.tmp), a.pid, IndexFile(p.half));
    LocksAreOwned(w, a.pid);
    StepKeepsInv(w, a.pid, InPlace(d, p.half, p.op, p.tmp), Replaced(p.half, p.lock));
  }

  lemma HistoriesStay(d: Disk, d': Disk)
    requires DiskOk(d)
    requires forall h :: IndexFile(h) in d'.dir <==> IndexFile(h) in d.dir
    requires forall h :: IndexFile(h) in d.dir ==> d'.dir[IndexFile(h)] == d.dir[IndexFile(h)]
    requires forall i :: i in d.sealed ==> i in d.files && i in d'.files && d'.files[i] == d.files[i]
    requires d'.versions == d.versions && d'.ops == d.ops
    ensures forall h :: HistoryOk(d', h)
  {
    forall h ensures HistoryOk(d', h) {
      HistoryOkOf(d, h);
      HistoryStays(d, d', h);
    }
  }

  lemma ReplaceDbKeepsDisk(d: Disk, d': Disk, pid: Pid, p: Proc)
    requires DiskOk(d) && ProcOk(d, pid, p) && p.Building? && p.filled == |p.snaps|
    requires d' == d.(files := d.files[p.tmp := Database(Complete(d.files[p.tmp].db), p.snaps)],
                      dir := d.dir[DbFile := p.tmp], sealed := d.sealed + {p.tmp})
    ensures DiskOk(d') && Safe(d, d')
  {
    assert p.snaps[..p.filled] == p.snaps;
    PutInPlace(d.dir, d.sealed, d.next, DbFile, p.tmp);
    SealedAreAllocated(d);
    SealedStays(d, d');
    assert SealedOk(d', p.tmp);
    HistoriesStay(d, d');
    ReplaceDbIsSafe(d, d', p);
  }

  lemma ReplaceDbIsSafe(d: Disk, d': Disk, p: Proc)
    requires DiskOk(d) && p.Building? && p.tmp !in d.sealed
    requires d'.dir == d.dir[DbFile := p.tmp] && d'.sealed == d.sealed + {p.tmp}
    requires forall i :: i in d.files && i != p.tmp ==> i in d'.files && d'.files[i] == d.files[i]
    requires d'.next == d.next && d'.versions == d.versions
    ensures Safe(d, d')
  {
    SealedAreAllocated(d);
  }

  lemma ReplaceDbKeeps(w: World, a: Action)
    requires Inv(w) && Enabled(true, w, a) && a.ReplaceDb?
    ensures Inv(Step(true, w, a))
  {
    var d, d', p := w.disk, DiskAfter(true, w, a), w.procs[a.pid];
    ProcOkOf(w, a.pid);
    ReplaceDbKeepsDisk(d, d', a.pid, p);
    ReplaceLeavesAlone(w, d', a.pid, DbFile);
    StepKeepsInv(w, a.pid, d', Idle);
  }

  // ---------------------------------------------------------------- every step, every run

  lemma StepKeeps(w: World, a: Action)
    requires Inv(w) && Enabled(true, w, a)
    ensures Inv(Step(true, w, a))
  {
    match a {
      case OpenLock(_, _, _) => OpenLockKeeps(w, a);
      case TakeLock(_) => TakeLockKeeps(w, a);
      case ReadIndex(_) => ReadIndexKeeps(w, a);
      case MakeTemp(_) => MakeTempKeeps(w, a);
      case WriteRow(_) => WriteRowKeeps(w, a);
      case Replace(_) => ReplaceKeeps(w, a);
      case StartMove(_, _) => StartMoveKeeps(w, a);
      case MoveOn(_) => MoveOnKeeps(w, a);
      case Stop(_) => StopKeeps(w, a);
      case StartRead(_, _) => StartReadKeeps(w, a);
      case ReadRow(_) => ReadRowKeeps(w, a);
      case FinishRead(_) => ReadRowKeeps(w, a);
      case StartBuild(_, _) => ReadRowKeeps(w, a);
      case TakeBuildLock(_) => TakeBuildLockKeeps(w, a);
      case TakeSnapshot(_, _) => SnapshotStepKeeps(w, a);
      case StartFilling(_) => StartFillingKeeps(w, a);
      case FillSource(_) => FillSourceKeeps(w, a);
      case ReplaceDb(_) => ReplaceDbKeeps(w, a);
      case StartOpen(_) => StartOpenKeeps(w, a);
      case OpenSource(_, _) => OpenSourceKeeps(w, a);
      case HashSource(_) => HashSourceKeeps(w, a);
      case Accept(_) => AcceptKeeps(w, a);
    }
  }

  lemma {:induction false} RunKeepsInv(w: World, steps: seq<Action>, w': World)
    requires Inv(w) && Leads(true, w, steps, w')
    ensures Inv(w')
    decreases |steps|
  {
    if steps != [] {
      StepKeeps(w, steps[0]);
      RunKeepsInv(Step(true, w, steps[0]), steps[1..], w');
    }
  }
}
