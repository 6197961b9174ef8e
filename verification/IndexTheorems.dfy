/** What holds over every interleaving of writers, readers, builders and opens. */
module IndexTheorems {
  import opened Prelude
  import opened DerivedDb
  import opened Finders
  import opened IndexProtocol
  import opened IndexSafety
  import opened IndexSteps

  // ---------------------------------------------------------------- serial history

  /** The transformations one after the other. */
  ghost function ApplyAll(ops: seq<Op>, c: Content): Content {
    if ops == [] then c else ops[|ops| - 1](ApplyAll(ops[..|ops| - 1], c))
  }

  ghost function CommittedBy(w: World, a: Action, h: Half): seq<Op>
    requires Enabled(true, w, a)
  {
    var p := w.procs[a.pid];
    if a.Replace? && p.half == h then [p.op]
    else if a.MoveOn? && p.mover.Moving? && p.mover.left == [] && p.mover.half == h then [p.mover.Op()]
    else []
  }

  /** What the run's replaces applied to one half, in the order they happened. */
  ghost function Committed(w: World, steps: seq<Action>, h: Half): seq<Op>
    decreases |steps|
  {
    if steps == [] || !Enabled(true, w, steps[0]) then []
    else CommittedBy(w, steps[0], h) + Committed(Step(true, w, steps[0]), steps[1..], h)
  }

  /** The half's history has only grown: these versions and transformations came after those. */
  ghost predicate Appended(d: Disk, d': Disk, h: Half, ops: seq<Op>) {
    && h in d.versions && h in d'.versions && d.versions[h] <= d'.versions[h]
    && h in d.ops && h in d'.ops && d'.ops[h] == d.ops[h] + ops
    && (IndexFile(h) in d'.dir <==> IndexFile(h) in d.dir)
  }

  lemma AppendedTrans(d: Disk, d1: Disk, d': Disk, h: Half, a: seq<Op>, b: seq<Op>)
    requires Appended(d, d1, h, a) && Appended(d1, d', h, b)
    ensures Appended(d, d', h, a + b)
  {
    assert d.ops[h] + a + b == d.ops[h] + (a + b);
  }

  lemma {:induction false} RunAppends(w: World, steps: seq<Action>, w': World, h: Half)
    requires Inv(w) && Leads(true, w, steps, w')
    ensures Inv(w') && Appended(w.disk, w'.disk, h, Committed(w, steps, h))
    decreases |steps|
  {
    if steps == [] {
      HistoryOkOf(w.disk, h);
      assert w.disk.ops[h] + [] == w.disk.ops[h];
    } else {
      var next := Step(true, w, steps[0]);
      StepKeeps(w, steps[0]);
      StepAppends(w, steps[0], h);
      RunAppends(next, steps[1..], w', h);
      AppendedTrans(w.disk, next.disk, w'.disk, h, CommittedBy(w, steps[0], h), Committed(next, steps[1..], h));
    }
  }

  lemma StepAppends(w: World, a: Action, h: Half)
    requires Inv(w) && Enabled(true, w, a)
    ensures Appended(w.disk, DiskAfter(true, w, a), h, CommittedBy(w, a, h))
  {
    var d := w.disk;
    HistoryOkOf(d, h);
    assert d.ops[h] + [] == d.ops[h];
    ProcOkOf(w, a.pid);
    if a.Replace? {
      ReplaceAppends(w, a, h);
    } else if a.MoveOn? {
      MoveAppends(w, a, h);
    } else if a.TakeBuildLock? {
      BuildLockAppends(w, a, h);
    }
  }

  lemma ReplaceAppends(w: World, a: Action, h: Half)
    requires Inv(w) && Enabled(true, w, a) && a.Replace?
    ensures Appended(w.disk, DiskAfter(true, w, a), h, CommittedBy(w, a, h))
  {
    ProcOkOf(w, a.pid);
    InPlaceAppends(w.disk, w.procs[a.pid].half, w.procs[a.pid].op, w.procs[a.pid].tmp, h);
  }

  lemma BuildLockAppends(w: World, a: Action, h: Half)
    requires Inv(w) && Enabled(true, w, a) && a.TakeBuildLock?
    ensures Appended(w.disk, DiskAfter(true, w, a), h, [])
  {
    HistoryOkOf(w.disk, h);
    assert w.disk.ops[h] + [] == w.disk.ops[h];
  }

  lemma MoveAppends(w: World, a: Action, h: Half)
    requires Inv(w) && Enabled(true, w, a) && a.MoveOn?
    ensures Appended(w.disk, DiskAfter(true, w, a), h, CommittedBy(w, a, h))
  {
    var d, m := w.disk, w.procs[a.pid].mover;
    HistoryOkOf(d, h);
    assert d.ops[h] + [] == d.ops[h];
    ProcOkOf(w, a.pid);
    if m.Moving? && m.left == [] {
      InPlaceAppends(d, m.half, m.Op(), m.tmp, h);
    }
  }

  lemma InPlaceAppends(d: Disk, half: Half, op: Op, tmp: Inode, h: Half)
    requires DiskOk(d) && half in d.versions && half in d.ops && tmp in d.files && d.files[tmp].Rows? && IndexFile(half) in d.dir
    ensures Appended(d, InPlace(d, half, op, tmp), h, if half == h then [op] else [])
  {
    HistoryOkOf(d, h);
    assert d.ops[h] + [] == d.ops[h];
  }

  lemma {:induction false} HistoryIsApplyAll(d: Disk, h: Half, k: nat)
    requires HistoryOk(d, h) && IndexFile(h) in d.dir && k <= |d.ops[h]|
    ensures d.versions[h][k] == ApplyAll(d.ops[h][..k], d.versions[h][0])
    decreases k
  {
    if k > 0 {
      HistoryIsApplyAll(d, h, k - 1);
      assert d.ops[h][..k][..k - 1] == d.ops[h][..k - 1];
    }
  }

  /**
    * No update is lost: over every run from any start, an index holds its first
    * content with every committed transformation applied, in commit order.
    */
  lemma NoLostUpdate(w: World, steps: seq<Action>, w': World, h: Half)
    requires Initial(w) && Leads(true, w, steps, w') && HasIndex(w.disk, h)
    ensures HasIndex(w'.disk, h)
    ensures IndexContent(w'.disk, h) == ApplyAll(Committed(w, steps, h), IndexContent(w.disk, h))
  {
    InitialInv(w);
    RunAppends(w, steps, w', h);
    HistoryOkOf(w'.disk, h);
    var ops := w'.disk.ops[h];
    assert ops == Committed(w, steps, h);
    HistoryIsApplyAll(w'.disk, h, |ops|);
    assert ops[..|ops|] == ops;
  }

  /** In every run, at most one process at a time is between taking and releasing a half's lock. */
  lemma OneHolder(w: World, steps: seq<Action>, w': World, a: Pid, b: Pid, h: Half)
    requires Initial(w) && Leads(true, w, steps, w')
    requires a in w'.procs && b in w'.procs && h in Holds(w'.procs[a]) && h in Holds(w'.procs[b])
    ensures a == b
  {
    InitialInv(w);
    RunKeepsInv(w, steps, w');
    Exclusion(w', a, b, h);
  }

  // ---------------------------------------------------------------- readers

  /** A reader that took no lock has read one whole content, at least as new as the one it opened on. */
  lemma ReaderSeesOneVersion(w: World, steps: seq<Action>, w': World, pid: Pid)
    requires Initial(w) && Leads(true, w, steps, w')
    requires pid in w'.procs && w'.procs[pid].DoneReading?
    ensures var p := w'.procs[pid];
            p.half in w'.disk.versions
            && exists k :: 0 <= k < |w'.disk.versions[p.half]| && k + 1 >= p.since && w'.disk.versions[p.half][k] == p.got
  {
    InitialInv(w);
    RunKeepsInv(w, steps, w');
    assert ProcOk(w'.disk, pid, w'.procs[pid]);
  }

  // ---------------------------------------------------------------- opens

  /**
    * An open that returned is on a whole database, and every finder on it gives what
    * scanning the bytes this open hashed would give; those bytes were each half's
    * content at a moment after the open began.
    */
  lemma AcceptedOpenIsRight(w: World, steps: seq<Action>, w': World, pid: Pid, half: Option<Half>)
    requires Initial(w) && Leads(true, w, steps, w')
    requires pid in w'.procs && w'.procs[pid].Opened?
    ensures var d, p := w'.disk, w'.procs[pid];
            && p.file in d.files && d.files[p.file].Database?
            && p.hashed.Keys == Present(d)
            && (forall h :: h in p.hashed ==> h in p.began && VersionSince(d, h, p.began[h], p.hashed[h]))
            && var db := d.files[p.file].db;
            && (forall kind, value :: FindByCluster(db.rows, kind, value, half)
                                   == ScanCluster(FileEntries(p.hashed), FieldOf(kind), value, half))
            && (forall tag :: FindByTag(db.rows, db.tags, tag, half) == ScanTag(FileEntries(p.hashed), tag, half))
            && (forall prefix :: Utf8Order.Bounded(prefix) ==>
                  FindByPathPrefix(db.rows, db.paths, prefix, half) == ScanPathPrefix(FileEntries(p.hashed), prefix, half))
  {
    InitialInv(w);
    RunKeepsInv(w, steps, w');
    var d, p := w'.disk, w'.procs[pid];
    assert ProcOk(d, pid, p);
    assert SealedOk(d, p.file);
    AcceptedFindersAreScans(d.files[p.file].from, p.hashed, half);
  }

  /**
    * An open that has hashed every half returns exactly when the hashed bytes are the
    * ones the build read. So an index written since the snapshot means a refusal.
    */
  lemma OpenReturnsIffUnmoved(w: World, steps: seq<Action>, w': World, pid: Pid)
    requires Initial(w) && Leads(true, w, steps, w')
    requires pid in w'.procs && w'.procs[pid].Opening? && w'.procs[pid].current.None?
    requires w'.procs[pid].hashed.Keys == Present(w'.disk) && Published in Present(w'.disk)
    ensures var d, p := w'.disk, w'.procs[pid];
            p.file in d.files && d.files[p.file].Database?
            && (Enabled(true, w', Accept(pid)) <==> FilesOf(d.files[p.file].from) == p.hashed)
  {
    InitialInv(w);
    RunKeepsInv(w, steps, w');
    OpenAcceptsIffUnmoved(w', pid);
  }

  /** Of all the guards of the last step, only freshness is left once every half is hashed. */
  lemma AcceptNeedsFreshness(w: World, pid: Pid)
    requires pid in w.procs && w.procs[pid].Opening? && w.procs[pid].current.None?
    requires w.procs[pid].hashed.Keys == Present(w.disk) && Published in Present(w.disk)
    requires w.procs[pid].file in w.disk.files && w.disk.files[w.procs[pid].file].Database?
    ensures Enabled(true, w, Accept(pid)) <==> Fresh(w.disk.files[w.procs[pid].file].db, w.procs[pid].hashed)
  {
  }

  lemma OpenedIsSealed(w: World, pid: Pid)
    requires Inv(w) && pid in w.procs && w.procs[pid].Opening?
    ensures SealedOk(w.disk, w.procs[pid].file) && w.procs[pid].file in w.disk.files && w.disk.files[w.procs[pid].file].Database?
  {
    assert ProcOk(w.disk, pid, w.procs[pid]);
    assert SealedOk(w.disk, w.procs[pid].file);
  }

  lemma OpenAcceptsIffUnmoved(w: World, pid: Pid)
    requires Inv(w) && pid in w.procs && w.procs[pid].Opening? && w.procs[pid].current.None?
    requires w.procs[pid].hashed.Keys == Present(w.disk) && Published in Present(w.disk)
    ensures var d, p := w.disk, w.procs[pid];
            p.file in d.files && d.files[p.file].Database?
            && (Enabled(true, w, Accept(pid)) <==> FilesOf(d.files[p.file].from) == p.hashed)
  {
    var d, p := w.disk, w.procs[pid];
    OpenedIsSealed(w, pid);
    AcceptNeedsFreshness(w, pid);
    FreshIffUnmoved(d.files[p.file].from, p.hashed);
  }

  // ---------------------------------------------------------------- no deadlock

  /** The half a process is waiting to lock. */
  function Awaited(p: Proc): Option<Half> {
    match p
    case WantsLock(h, _, _) => Some(h)
    case Snapshotting(want, locks, snaps) => if snaps == [] then NextWanted(want, locks.Keys) else None
    case _ => None
  }

  predicate Blocked(d: Disk, p: Proc) {
    Awaited(p).Some? && LockInode(true, d, Awaited(p).value) in d.flock
  }

  /** What a process holding a lock does next. It stops where the program raises, and when it is done. */
  ghost function NextAction(w: World, pid: Pid): Action
    requires pid in w.procs
  {
    var d, p := w.disk, w.procs[pid];
    match p
    case HasLock(h, _, _) => if HasIndex(d, h) then ReadIndex(pid) else Stop(pid)
    case HasRead(_, _, _, _) => MakeTemp(pid)
    case Writing(_, _, _, _, _, todo) => if todo != [] then WriteRow(pid) else Replace(pid)
    case Snapshotting(want, locks, snaps) =>
      if NextWanted(want, locks.Keys).Some? then TakeBuildLock(pid)
      else if NextWanted(want, HalvesOf(snaps)).None? then StartFilling(pid)
      else if HasIndex(d, NextWanted(want, HalvesOf(snaps)).value) then TakeSnapshot(pid, Stat(0, 0))
      else Stop(pid)
    case Publishing(m) => if m.BothMoved? then Stop(pid) else MoveOn(pid)
    case _ => Stop(pid)
  }

  lemma UnblockedWriterMoves(w: World, pid: Pid)
    requires Inv(w) && pid in w.procs && (w.procs[pid].HasLock? || w.procs[pid].HasRead? || w.procs[pid].Writing?)
    ensures Enabled(true, w, NextAction(w, pid))
  {
    var p := w.procs[pid];
    if p.Writing? {
      assert ProcOk(w.disk, pid, p);
      HistoryOkOf(w.disk, p.half);
    }
  }

  lemma UnblockedBuilderMoves(w: World, pid: Pid)
    requires Inv(w) && pid in w.procs && w.procs[pid].Snapshotting? && !Blocked(w.disk, w.procs[pid])
    ensures Enabled(true, w, NextAction(w, pid))
  {
    assert ProcOk(w.disk, pid, w.procs[pid]);
  }

  lemma MoverMoves(w: World, pid: Pid)
    requires Inv(w) && pid in w.procs && w.procs[pid].Publishing?
    ensures Enabled(true, w, NextAction(w, pid))
  {
    ProcOkOf(w, pid);
    var m := w.procs[pid].mover;
    if m.Moving? {
      HistoryOkOf(w.disk, m.half);
    }
  }

  lemma UnblockedHolderMoves(w: World, pid: Pid)
    requires Inv(w) && pid in w.procs && Holds(w.procs[pid]) != map[] && !Blocked(w.disk, w.procs[pid])
    ensures Enabled(true, w, NextAction(w, pid))
  {
    if w.procs[pid].Snapshotting? {
      UnblockedBuilderMoves(w, pid);
    } else if w.procs[pid].Publishing? {
      MoverMoves(w, pid);
    } else if !w.procs[pid].Replaced? {
      UnblockedWriterMoves(w, pid);
    }
  }

  /** A process that waits while holding a lock holds the published half's and waits for the local one's. */
  lemma HoldAndWait(w: World, pid: Pid)
    requires Inv(w) && pid in w.procs && Awaited(w.procs[pid]).Some? && Holds(w.procs[pid]) != map[]
    ensures Awaited(w.procs[pid]) == Some(Local) && Local !in Holds(w.procs[pid])
  {
    var p := w.procs[pid];
    assert ProcOk(w.disk, pid, p);
    assert p.Snapshotting?;
    var h :| h in p.locks;
    assert h == Published || h == Local;
    assert Published in p.want ==> Published in p.locks;
  }

  lemma LockHolder(w: World, pid: Pid) returns (q: Pid)
    requires Inv(w) && pid in w.procs && Blocked(w.disk, w.procs[pid])
    ensures q in w.procs && Awaited(w.procs[pid]).value in Holds(w.procs[q])
  {
    var d, h := w.disk, Awaited(w.procs[pid]).value;
    var i := LockInode(true, d, h);
    q := d.flock[i];
    assert ProcOk(d, q, w.procs[q]);
    var g :| g in Holds(w.procs[q]) && Holds(w.procs[q])[g] == i;
    assert d.dir[LockFile(g)] == i < d.next;
    assert LockFile(h) in d.dir && d.dir[LockFile(h)] == i;
    assert LockFile(g) == LockFile(h);
  }

  /** While anyone is blocked on a lock, someone holding a lock can take its next step. */
  lemma NoDeadlock(w: World, steps: seq<Action>, w': World, pid: Pid) returns (q: Pid)
    requires Initial(w) && Leads(true, w, steps, w')
    requires pid in w'.procs && Blocked(w'.disk, w'.procs[pid])
    ensures q in w'.procs && Holds(w'.procs[q]) != map[] && Enabled(true, w', NextAction(w', q))
  {
    InitialInv(w);
    RunKeepsInv(w, steps, w');
    q := LockHolder(w', pid);
    if Blocked(w'.disk, w'.procs[q]) {
      HoldAndWait(w', q);
      q := LockHolder(w', q);
      if Blocked(w'.disk, w'.procs[q]) {
        HoldAndWait(w', q);
        assert false;
      }
    }
    UnblockedHolderMoves(w', q);
  }
}
