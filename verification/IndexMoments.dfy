/** What is true of both halves at one moment: while rows are moved, and when a build took its snapshots. */
module IndexMoments {
  import opened DerivedDb
  import opened Finders
  import opened IndexProtocol
  import opened IndexSafety
  import opened IndexSteps

  // ---------------------------------------------------------------- moving rows

  /**
    * Rows being published are never in neither half: at every moment until the mover
    * releases, the halves are as it read them, or the published one is written and the
    * local one is not, or both are, as at the end. So an interruption leaves one of these three.
    */
  lemma MoveIsOneOfThree(w: World, steps: seq<Action>, w': World, pid: Pid)
    requires Initial(w) && Leads(true, w, steps, w')
    requires pid in w'.procs && w'.procs[pid].Publishing?
    ensures var d, m := w'.disk, w'.procs[pid].mover;
            && HasIndex(d, Published) && HasIndex(d, Local)
            && (IndexContent(d, Published) == m.pub || IndexContent(d, Published) == m.move.publish(m.pub))
            && (IndexContent(d, Local) == m.loc
                || (IndexContent(d, Local) == m.move.drop(m.loc) && IndexContent(d, Published) == m.move.publish(m.pub)))
            && (m.BothMoved? ==> IndexContent(d, Local) == m.move.drop(m.loc) && IndexContent(d, Published) == m.move.publish(m.pub))
  {
    InitialInv(w);
    RunKeepsInv(w, steps, w');
    ProcOkOf(w', pid);
  }

  // ---------------------------------------------------------------- the moment of a build

  /** At that moment the snapshots were the contents of their halves. */
  ghost predicate AllCurrent(d: Disk, snaps: seq<Snapshot>) {
    forall k :: 0 <= k < |snaps| ==> Current(d, snaps[k].half, snaps[k].content)
  }

  ghost predicate AtOneMoment(past: seq<Disk>, snaps: seq<Snapshot>) {
    exists k :: 0 <= k < |past| && AllCurrent(past[k], snaps)
  }

  /** Every database in place, or being filled, is of contents the halves had at one moment. */
  ghost predicate DatabasesDated(w: World, past: seq<Disk>) {
    && (forall i :: i in w.disk.sealed && i in w.disk.files && w.disk.files[i].Database? ==> AtOneMoment(past, w.disk.files[i].from))
    && (forall pid :: pid in w.procs && w.procs[pid].Building? ==> AtOneMoment(past, w.procs[pid].snaps))
  }

  lemma LongerPast(past: seq<Disk>, more: seq<Disk>, snaps: seq<Snapshot>)
    requires AtOneMoment(past, snaps)
    ensures AtOneMoment(past + more, snaps)
  {
    var k :| 0 <= k < |past| && AllCurrent(past[k], snaps);
    assert (past + more)[k] == past[k];
  }

  /** A database in place was in place already, or its builder has just put it there. */
  lemma DatabasesAfter(w: World, a: Action, i: Inode)
    requires Inv(w) && Enabled(true, w, a)
    requires var d' := DiskAfter(true, w, a); i in d'.sealed && i in d'.files && d'.files[i].Database?
    ensures var d, d', p := w.disk, DiskAfter(true, w, a), w.procs[a.pid];
            || (i in d.sealed && i in d.files && d.files[i].Database? && d.files[i].from == d'.files[i].from)
            || (p.Building? && d'.files[i].from == p.snaps)
  {
    SealedAreAllocated(w.disk);
    ProcOkOf(w, a.pid);
    if a.MoveOn? {
      DatabasesAfterMove(w, a, i);
    } else if a.TakeBuildLock? {
      LockFileIsNoDatabase(w.disk, NextWanted(w.procs[a.pid].want, w.procs[a.pid].locks.Keys).value, i);
    }
  }

  lemma LockFileIsNoDatabase(d: Disk, h: Half, i: Inode)
    requires var d' := WithLockFile(true, d, h); i in d'.files && d'.files[i].Database?
    ensures i in d.files && d.files[i] == WithLockFile(true, d, h).files[i] && WithLockFile(true, d, h).sealed == d.sealed
  {
  }

  lemma DatabasesAfterMove(w: World, a: Action, i: Inode)
    requires Inv(w) && Enabled(true, w, a) && a.MoveOn?
    requires var d' := DiskAfter(true, w, a); i in d'.sealed && i in d'.files && d'.files[i].Database?
    ensures i in w.disk.sealed && i in w.disk.files && w.disk.files[i] == DiskAfter(true, w, a).files[i]
  {
    SealedAreAllocated(w.disk);
    ProcOkOf(w, a.pid);
  }

  /** A builder at work was at work on the same snapshots, or has just taken its last one. */
  lemma BuildersAfter(w: World, a: Action)
    requires Inv(w) && Enabled(true, w, a) && ProcAfter(true, w, a).Building?
    ensures var p := w.procs[a.pid];
            (p.Building? || p.Snapshotting?) && ProcAfter(true, w, a).snaps == p.snaps
  {
  }

  lemma StepKeepsDates(w: World, a: Action, past: seq<Disk>)
    requires Inv(w) && Enabled(true, w, a) && DatabasesDated(w, past)
    ensures DatabasesDated(Step(true, w, a), past + [w.disk])
  {
    var d, d', p := w.disk, DiskAfter(true, w, a), w.procs[a.pid];
    forall i | i in d'.sealed && i in d'.files && d'.files[i].Database? ensures AtOneMoment(past + [d], d'.files[i].from) {
      DatabasesAfter(w, a, i);
      LongerPast(past, [d], d'.files[i].from);
    }
    var procs' := Step(true, w, a).procs;
    forall pid | pid in procs' && procs'[pid].Building? ensures AtOneMoment(past + [d], procs'[pid].snaps) {
      if pid == a.pid {
        BuildersAfter(w, a);
      }
      if pid == a.pid && p.Snapshotting? {
        SnapshotsAreCurrent(w, pid);
        assert (past + [d])[|past|] == d;
      } else {
        LongerPast(past, [d], procs'[pid].snaps);
      }
    }
  }

  lemma SnapshotsAreCurrent(w: World, pid: Pid)
    requires Inv(w) && pid in w.procs && w.procs[pid].Snapshotting?
    ensures AllCurrent(w.disk, w.procs[pid].snaps)
  {
    ProcOkOf(w, pid);
  }

  /** The disks a run goes through, the last one left out. */
  ghost function Passed(w: World, steps: seq<Action>): seq<Disk>
    decreases |steps|
  {
    if steps == [] || !Enabled(true, w, steps[0]) then []
    else [w.disk] + Passed(Step(true, w, steps[0]), steps[1..])
  }

  lemma {:induction false} RunKeepsDates(w: World, steps: seq<Action>, w': World, past: seq<Disk>)
    requires Inv(w) && Leads(true, w, steps, w') && DatabasesDated(w, past)
    ensures DatabasesDated(w', past + Passed(w, steps))
    decreases |steps|
  {
    if steps == [] {
      assert past + [] == past;
    } else {
      var next := Step(true, w, steps[0]);
      StepKeeps(w, steps[0]);
      StepKeepsDates(w, steps[0], past);
      RunKeepsDates(next, steps[1..], w', past + [w.disk]);
      assert past + [w.disk] + Passed(next, steps[1..]) == past + Passed(w, steps);
    }
  }

  /** Each disk passed is that of a world the run was in. */
  lemma {:induction false} PassedIsOfTheRun(w: World, steps: seq<Action>, w': World, k: nat) returns (v: World)
    requires Leads(true, w, steps, w') && k < |Passed(w, steps)|
    ensures k <= |steps| && Leads(true, w, steps[..k], v) && v.disk == Passed(w, steps)[k]
    decreases |steps|
  {
    if k == 0 {
      v := w;
    } else {
      v := PassedIsOfTheRun(Step(true, w, steps[0]), steps[1..], w', k - 1);
      assert steps[..k][0] == steps[0] && steps[..k][1..] == steps[1..][..k - 1];
    }
  }

  lemma NoDatabaseYet(w: World)
    requires Initial(w)
    ensures DatabasesDated(w, [])
  {
    forall i | i in w.disk.sealed ensures i in w.disk.files && w.disk.files[i].Rows? {
      var path :| path in w.disk.dir && w.disk.dir[path] == i;
      assert HasIndex(w.disk, path.half);
    }
  }

  /**
    * The halves an accepted open answers for belong together: the bytes it hashed were
    * all current at one moment of the run, whatever wrote to either half in between.
    */
  lemma AcceptedHalvesBelongTogether(w: World, steps: seq<Action>, w': World, pid: Pid) returns (k: nat, v: World)
    requires Initial(w) && Leads(true, w, steps, w')
    requires pid in w'.procs && w'.procs[pid].Opened?
    ensures k <= |steps| && Leads(true, w, steps[..k], v)
    ensures forall h :: h in w'.procs[pid].hashed ==> Current(v.disk, h, w'.procs[pid].hashed[h])
  {
    InitialInv(w);
    RunKeepsInv(w, steps, w');
    NoDatabaseYet(w);
    RunKeepsDates(w, steps, w', []);
    assert [] + Passed(w, steps) == Passed(w, steps);
    var d, p := w'.disk, w'.procs[pid];
    ProcOkOf(w', pid);
    assert SealedOk(d, p.file);
    var from := d.files[p.file].from;
    k :| 0 <= k < |Passed(w, steps)| && AllCurrent(Passed(w, steps)[k], from);
    v := PassedIsOfTheRun(w, steps, w', k);
    FreshIffUnmoved(from, p.hashed);
    FilesAreCurrent(v.disk, from);
  }

  lemma {:induction false} FilesAreCurrent(d: Disk, snaps: seq<Snapshot>)
    requires AllCurrent(d, snaps)
    ensures forall h :: h in FilesOf(snaps) ==> Current(d, h, FilesOf(snaps)[h])
  {
    if snaps != [] {
      var front := snaps[..|snaps| - 1];
      assert forall k :: 0 <= k < |front| ==> front[k] == snaps[k];
      FilesAreCurrent(d, front);
    }
  }
}
