/**
  * What every step of the index protocol keeps, and what one process may rely on while
  * another moves.
  *
  * The invariant says: different paths name different inodes; what is in place is whole
  * and was put there by a replace; the history of a half is its contents, each obtained
  * from the one before by a recorded transformation; a process between lock and release
  * holds the lock it thinks it holds, on the inode the lock file names; what it re-read
  * is still the current content; a temp file belongs to one process; and what an open
  * has hashed was the content of its half at some moment since the open began.
  */
module IndexSafety {
  import opened DerivedDb
  import opened Finders
  import opened IndexProtocol

  // ---------------------------------------------------------------- the invariant

  /** `c` is one of the contents the half has had, no older than number `since`. */
  ghost predicate VersionSince(d: Disk, h: Half, since: nat, c: Content) {
    h in d.versions && exists k :: 0 <= k < |d.versions[h]| && k + 1 >= since && d.versions[h][k] == c
  }

  ghost predicate Current(d: Disk, h: Half, c: Content) {
    HasIndex(d, h) && IndexContent(d, h) == c
  }

  /** An inode in place holds either a whole past or present index, or a whole database. */
  ghost predicate SealedOk(d: Disk, i: Inode) {
    && i < d.next && i in d.files
    && match d.files[i]
       case Rows(c) => true
       case Database(db, from) => db == Complete(Tables(from)) && InSourceOrder(from)
       case LockText => false
  }

  ghost predicate HistoryOk(d: Disk, h: Half) {
    && h in d.versions && h in d.ops
    && (IndexFile(h) in d.dir ==>
          && HasIndex(d, h)
          && |d.versions[h]| == |d.ops[h]| + 1
          && d.versions[h][|d.ops[h]|] == IndexContent(d, h)
          && forall k :: 0 <= k < |d.ops[h]| ==> d.versions[h][k + 1] == d.ops[h][k](d.versions[h][k]))
    && (IndexFile(h) !in d.dir ==> d.versions[h] == [] && d.ops[h] == [])
  }

  /** Different paths name different inodes, and all but the lock files have been put in place by a replace. */
  ghost predicate DirOk(dir: map<Path, Inode>, sealed: set<Inode>, next: Inode) {
    && (forall p :: p in dir ==> dir[p] < next)
    && (forall p, q :: p in dir && q in dir && p != q ==> dir[p] != dir[q])
    && (forall p :: p in dir ==> (dir[p] in sealed <==> !p.LockFile?))
  }

  ghost predicate DiskOk(d: Disk) {
    && DirOk(d.dir, d.sealed, d.next)
    && (forall i :: i in d.sealed ==> SealedOk(d, i))
    && (DbFile in d.dir ==> d.dir[DbFile] in d.files && d.files[d.dir[DbFile]].Database?)
    && HistoryOk(d, Published) && HistoryOk(d, Local)
  }

  ghost predicate LocksOk(d: Disk, pid: Pid, p: Proc) {
    && (forall h :: h in Holds(p) ==>
          LockFile(h) in d.dir && Holds(p)[h] == d.dir[LockFile(h)]
          && Holds(p)[h] in d.flock && d.flock[Holds(p)[h]] == pid)
    && (p.WantsLock? ==> LockFile(p.half) in d.dir && p.lock == d.dir[LockFile(p.half)])
  }

  /** A temp file is nobody's but its writer's. */
  ghost predicate TempOk(d: Disk, i: Inode) {
    i < d.next && i in d.files && i !in d.sealed && i !in d.dir.Values
  }

  /** Both halves are what the mover made of them so far, and it holds both locks. */
  ghost predicate MoverOk(d: Disk, m: Mover) {
    match m
    case Moving(move, held, pub, loc, half, tmp, left) =>
      && held.Keys == {Published, Local}
      && Current(d, Published, if half == Published then pub else move.publish(pub)) && Current(d, Local, loc)
      && tmp in d.files && d.files[tmp].Rows? && d.files[tmp].content + left == m.Op()(m.From())
    case HalfMoved(move, held, pub, loc) =>
      held.Keys == {Published, Local} && Current(d, Published, move.publish(pub)) && Current(d, Local, loc)
    case BothMoved(move, held, pub, loc) =>
      held.Keys == {Published, Local} && Current(d, Published, move.publish(pub)) && Current(d, Local, move.drop(loc))
  }

  ghost predicate ProcOk(d: Disk, pid: Pid, p: Proc) {
    && LocksOk(d, pid, p)
    && (Temp(p).Some? ==> TempOk(d, Temp(p).value))
    && match p
       case HasRead(h, _, _, snapshot) => Current(d, h, snapshot)
       case Writing(h, op, _, snapshot, tmp, todo) =>
         Current(d, h, snapshot) && tmp in d.files && d.files[tmp].Rows? && d.files[tmp].content + todo == op(snapshot)
       case Publishing(m) => MoverOk(d, m)
       case Reading(h, file, got, since) =>
         && file in d.sealed && file in d.files && d.files[file].Rows?
         && got <= d.files[file].content && VersionSince(d, h, since, d.files[file].content)
       case DoneReading(h, got, since) => VersionSince(d, h, since, got)
       case Snapshotting(want, locks, snaps) =>
         && locks.Keys <= want && (snaps != [] ==> NextWanted(want, locks.Keys).None?)
         && InSourceOrder(snaps) && HalvesOf(snaps) <= want
         && (|snaps| == 1 && snaps[0].half == Local ==> Published !in want)
         && (Local in locks && Published in want ==> Published in locks)
         && forall k :: 0 <= k < |snaps| ==> Current(d, snaps[k].half, snaps[k].content)
       case Building(snaps, tmp, filled) =>
         && InSourceOrder(snaps) && filled <= |snaps|
         && tmp in d.files && d.files[tmp] == Database(Tables(snaps[..filled]), snaps)
       case Opening(file, hashed, current, began) =>
         && file in d.sealed && file in d.files && d.files[file].Database?
         && (forall h :: h in hashed ==> h in began && VersionSince(d, h, began[h], hashed[h]))
         && (current.Some? ==>
               var s := current.value;
               && s.file in d.sealed && s.file in d.files && d.files[s.file].Rows?
               && s.half in began && VersionSince(d, s.half, began[s.half], d.files[s.file].content))
         && (forall h :: h in d.versions ==> h in began && began[h] <= |d.versions[h]|)
       case Opened(file, hashed, began) =>
         && file in d.sealed && file in d.files && d.files[file].Database?
         && (forall h :: h in hashed ==> h in began && VersionSince(d, h, began[h], hashed[h]))
         && hashed.Keys == Present(d) && Fresh(d.files[file].db, hashed)
       case _ => true
  }

  ghost predicate TempsDistinct(procs: map<Pid, Proc>) {
    forall a, b :: a in procs && b in procs && a != b && Temp(procs[a]).Some? && Temp(procs[b]).Some? ==>
      Temp(procs[a]).value != Temp(procs[b]).value
  }

  /** No lock is left behind: whoever the kernel says holds one is running and knows it. */
  ghost predicate LocksOwned(w: World) {
    forall i :: i in w.disk.flock ==>
      w.disk.flock[i] in w.procs && i in Holds(w.procs[w.disk.flock[i]]).Values
  }

  ghost predicate Inv(w: World) {
    && DiskOk(w.disk)
    && (forall pid :: pid in w.procs ==> ProcOk(w.disk, pid, w.procs[pid]))
    && TempsDistinct(w.procs)
    && LocksOwned(w)
  }

  lemma InitialInv(w: World)
    requires Initial(w)
    ensures Inv(w)
  {
    forall pid | pid in w.procs ensures ProcOk(w.disk, pid, w.procs[pid]) {
      assert Holds(w.procs[pid]) == map[];
    }
  }

  // ---------------------------------------------------------------- what other processes rely on

  ghost predicate Safe(d: Disk, d': Disk) {
    && d.next <= d'.next
    && (forall p :: p in d.dir && p.LockFile? ==> p in d'.dir && d'.dir[p] == d.dir[p])
    && d.sealed <= d'.sealed
    && (forall i :: i in d.sealed ==> i in d.files && i in d'.files && d'.files[i] == d.files[i])
    && (forall h :: h in d.versions ==> h in d'.versions && d.versions[h] <= d'.versions[h])
    && d'.versions.Keys == d.versions.Keys
    && Present(d') == Present(d)
  }

  /** What a step must leave alone for a process that is not taking it. */
  ghost predicate LeavesAlone(d: Disk, d': Disk, q: Pid, p: Proc) {
    && (Temp(p).Some? ==>
          var t := Temp(p).value;
          t in d.files && t in d'.files && d'.files[t] == d.files[t] && t !in d'.sealed && t !in d'.dir.Values)
    && (forall i :: i in Holds(p).Values && i in d.flock && d.flock[i] == q ==> i in d'.flock && d'.flock[i] == q)
    && (forall h :: h in Holds(p) && IndexFile(h) in d.dir ==>
          IndexFile(h) in d'.dir && d'.dir[IndexFile(h)] == d.dir[IndexFile(h)])
  }

  lemma WantedIsHeld(want: set<Half>, done: set<Half>, h: Half)
    requires NextWanted(want, done).None? && h in want
    ensures h in done
  {
  }

  lemma SnapshotsStayCurrent(d: Disk, d': Disk, q: Pid, p: Proc)
    requires DiskOk(d) && Safe(d, d') && ProcOk(d, q, p) && p.Snapshotting? && LeavesAlone(d, d', q, p)
    ensures forall k :: 0 <= k < |p.snaps| ==> Current(d', p.snaps[k].half, p.snaps[k].content)
  {
    forall k | 0 <= k < |p.snaps| ensures Current(d', p.snaps[k].half, p.snaps[k].content) {
      assert p.snaps[k].half in HalvesOf(p.snaps);
      WantedIsHeld(p.want, p.locks.Keys, p.snaps[k].half);
    }
  }

  lemma VersionStays(d: Disk, d': Disk, h: Half, since: nat, c: Content)
    requires Safe(d, d') && VersionSince(d, h, since, c)
    ensures VersionSince(d', h, since, c)
  {
    var k :| 0 <= k < |d.versions[h]| && k + 1 >= since && d.versions[h][k] == c;
    assert d'.versions[h][k] == c;
  }

  lemma MoverStaysOk(d: Disk, d': Disk, q: Pid, m: Mover)
    requires DiskOk(d) && Safe(d, d') && ProcOk(d, q, Publishing(m)) && LeavesAlone(d, d', q, Publishing(m))
    ensures MoverOk(d', m)
  {
  }

  lemma OpeningStaysOk(d: Disk, d': Disk, q: Pid, p: Proc)
    requires DiskOk(d) && Safe(d, d') && ProcOk(d, q, p) && (p.Opening? || p.Opened?)
    ensures forall h :: h in p.hashed ==> VersionSince(d', h, p.began[h], p.hashed[h])
    ensures p.Opening? && p.current.Some? ==>
              var s := p.current.value;
              s.file in d'.files && d'.files[s.file].Rows? && VersionSince(d', s.half, p.began[s.half], d'.files[s.file].content)
  {
    forall h | h in p.hashed ensures VersionSince(d', h, p.began[h], p.hashed[h]) {
      VersionStays(d, d', h, p.began[h], p.hashed[h]);
    }
    if p.Opening? && p.current.Some? {
      var s := p.current.value;
      VersionStays(d, d', s.half, p.began[s.half], d.files[s.file].content);
    }
  }

  /** A process that holds what it reads under, and has only its own temp file, is undisturbed. */
  lemma OtherStaysOk(d: Disk, d': Disk, q: Pid, p: Proc)
    requires DiskOk(d) && Safe(d, d') && ProcOk(d, q, p) && LeavesAlone(d, d', q, p)
    ensures ProcOk(d', q, p)
  {
    match p
    case Reading(h, file, _, since) => VersionStays(d, d', h, since, d.files[file].content);
    case DoneReading(h, got, since) => VersionStays(d, d', h, since, got);
    case Publishing(m) => MoverStaysOk(d, d', q, m);
    case Snapshotting(_, _, _) => SnapshotsStayCurrent(d, d', q, p);
    case Opening(_, _, _, _) => OpeningStaysOk(d, d', q, p);
    case Opened(_, _, _) => OpeningStaysOk(d, d', q, p);
    case _ =>
  }

  lemma TempsStayDistinct(d: Disk, procs: map<Pid, Proc>, pid: Pid, p': Proc)
    requires pid in procs && TempsDistinct(procs)
    requires forall q :: q in procs && Temp(procs[q]).Some? ==> Temp(procs[q]).value < d.next
    requires Temp(p').Some? ==> Temp(p') == Temp(procs[pid]) || Temp(p').value >= d.next
    ensures TempsDistinct(procs[pid := p'])
  {
  }

  lemma LocksStayOwned(w: World, pid: Pid, d': Disk, p': Proc)
    requires LocksOwned(w) && pid in w.procs
    requires forall i :: i in d'.flock ==>
               if d'.flock[i] == pid then i in Holds(p').Values
               else i in w.disk.flock && w.disk.flock[i] == d'.flock[i]
    ensures LocksOwned(World(d', w.procs[pid := p']))
  {
  }

  lemma OthersStayOk(w: World, pid: Pid, d': Disk)
    requires Inv(w) && Safe(w.disk, d')
    requires forall q :: q in w.procs && q != pid ==> LeavesAlone(w.disk, d', q, w.procs[q])
    ensures forall q :: q in w.procs && q != pid ==> ProcOk(d', q, w.procs[q])
  {
    forall q | q in w.procs && q != pid ensures ProcOk(d', q, w.procs[q]) {
      OtherStaysOk(w.disk, d', q, w.procs[q]);
    }
  }

  /** What one step has to show, and no more, to keep the invariant. */
  lemma StepKeepsInv(w: World, pid: Pid, d': Disk, p': Proc)
    requires Inv(w) && pid in w.procs
    requires DiskOk(d') && Safe(w.disk, d') && ProcOk(d', pid, p')
    requires forall q :: q in w.procs && q != pid ==> LeavesAlone(w.disk, d', q, w.procs[q])
    requires Temp(p').Some? ==> Temp(p') == Temp(w.procs[pid]) || Temp(p').value >= w.disk.next
    requires forall i :: i in d'.flock ==>
               if d'.flock[i] == pid then i in Holds(p').Values
               else i in w.disk.flock && w.disk.flock[i] == d'.flock[i]
    ensures Inv(World(d', w.procs[pid := p']))
  {
    OthersStayOk(w, pid, d');
    TempsStayDistinct(w.disk, w.procs, pid, p');
    LocksStayOwned(w, pid, d', p');
  }

}
