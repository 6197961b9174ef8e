/**
  * What a process that runs on by itself gets done, from any point of any run: a writer
  * installs its rows, a mover both halves, a reader the current rows, a builder a database
  * of the files as they are, and an open returns it.
  */
module IndexProgress {
  import opened DerivedDb
  import opened Finders
  import opened IndexProtocol
  import opened IndexSafety
  import opened IndexSteps
  import opened Prelude

  /** Steps of one process alone lead from one world to the other. */
  ghost predicate Alone(w: World, pid: Pid, w': World) {
    exists steps: seq<Action> :: AllOf(steps, pid) && Leads(true, w, steps, w')
  }

  ghost predicate AllOf(steps: seq<Action>, pid: Pid) {
    forall k :: 0 <= k < |steps| ==> steps[k].pid == pid
  }

  /** Whatever `pid` alone can reach from `w'` it can reach from `w`. */
  ghost predicate OnTheWay(w: World, pid: Pid, w': World) {
    forall x :: Alone(w', pid, x) ==> Alone(w, pid, x)
  }

  lemma Arrived(w: World, pid: Pid, w': World)
    requires OnTheWay(w, pid, w')
    ensures Alone(w, pid, w')
  {
    assert AllOf([], pid) && Leads(true, w', [], w');
    assert Alone(w', pid, w');
  }

  lemma OneStep(w: World, a: Action)
    requires Enabled(true, w, a)
    ensures OnTheWay(w, a.pid, Step(true, w, a))
  {
    forall x | Alone(Step(true, w, a), a.pid, x) ensures Alone(w, a.pid, x) {
      var steps: seq<Action> :| AllOf(steps, a.pid) && Leads(true, Step(true, w, a), steps, x);
      assert ([a] + steps)[1..] == steps;
      assert AllOf([a] + steps, a.pid) && Leads(true, w, [a] + steps, x);
    }
  }

  lemma GoOn(w: World, pid: Pid, mid: World, w': World)
    requires OnTheWay(w, pid, mid) && OnTheWay(mid, pid, w')
    ensures OnTheWay(w, pid, w')
  {
  }

  /** The rows a half has now, if it has a file. */
  ghost function Now(d: Disk, h: Half): Option<Content> {
    if IndexFile(h) in d.dir && d.dir[IndexFile(h)] in d.files && d.files[d.dir[IndexFile(h)]].Rows?
    then Some(d.files[d.dir[IndexFile(h)]].content) else None
  }

  /** A half's lock is free: nobody holds it, or nobody has asked for it yet. */
  ghost predicate IsFree(d: Disk, h: Half) {
    LockFile(h) in d.dir ==> d.dir[LockFile(h)] !in d.flock
  }

  /** No inode is in two places, none in place or locked is still to come, and both halves have a history. */
  ghost predicate Placed(d: Disk) {
    && (forall p :: p in d.dir ==> d.dir[p] < d.next) && (forall i :: i in d.flock ==> i < d.next)
    && (forall p, q :: p in d.dir && q in d.dir && p != q ==> d.dir[p] != d.dir[q])
    && (forall h: Half :: h in d.versions && h in d.ops) && forall h: Half :: IndexFile(h) in d.dir ==> Now(d, h).Some?
  }

  /** So it is at every point of every run. */
  lemma ReachedIsPlaced(w: World, steps: seq<Action>, w': World)
    requires Initial(w) && Leads(true, w, steps, w')
    ensures Placed(w'.disk)
  {
    InitialInv(w);
    RunKeepsInv(w, steps, w');
    forall i | i in w'.disk.flock ensures i < w'.disk.next {
      var q := w'.disk.flock[i];
      assert ProcOk(w'.disk, q, w'.procs[q]);
    }
    forall h: Half ensures h in w'.disk.versions && h in w'.disk.ops && (IndexFile(h) in w'.disk.dir ==> Now(w'.disk, h).Some?) {
      HistoryOkOf(w'.disk, h);
    }
  }

  ghost function StartDisk(pub: Option<Content>, loc: Option<Content>): Disk {
    var p, l := if pub.Some? then pub.value else [], if loc.Some? then loc.value else [];
    var one, two := if pub.Some? then map[IndexFile(Published) := 0] else map[], if loc.Some? then map[IndexFile(Local) := 1] else map[];
    var dir: map<Path, Inode> := one + two;
    Disk(dir, map[0 := Rows(p), 1 := Rows(l)], dir.Values, 2, map[], map[Published := [], Local := []],
         map[Published := if pub.Some? then [p] else [], Local := if loc.Some? then [l] else []])
  }

  lemma StartOfHalf(pub: Option<Content>, loc: Option<Content>, h: Half)
    ensures var d, c := StartDisk(pub, loc), if h == Published then pub else loc;
            && Now(d, h) == c && (HasIndex(d, h) <==> c.Some?) && (IndexFile(h) in d.dir <==> c.Some?) && LockFile(h) !in d.dir
            && h in d.versions && h in d.ops && d.ops[h] == []
            && d.versions[h] == if c.Some? then [c.value] else []
  {
    match h
    case Published =>
    case Local =>
  }

  /** A run can start from any rows in the halves that are there, with any processes. */
  lemma AnyStart(pub: Option<Content>, loc: Option<Content>, pids: set<Pid>) returns (w: World)
    ensures Initial(w) && Placed(w.disk) && forall h: Half :: IsFree(w.disk, h)
    ensures Now(w.disk, Published) == pub && Now(w.disk, Local) == loc
    ensures w.procs.Keys == pids && forall pid :: pid in pids ==> w.procs[pid].Idle?
  {
    w := World(StartDisk(pub, loc), map pid | pid in pids :: Idle);
    StartsAt(w, pub, loc);
    ReachedIsPlaced(w, [], w);
    StartOfHalf(pub, loc, Published);
    StartOfHalf(pub, loc, Local);
  }

  lemma StartsAt(w: World, pub: Option<Content>, loc: Option<Content>)
    requires w.disk == StartDisk(pub, loc) && forall pid :: pid in w.procs ==> w.procs[pid].Idle?
    ensures Initial(w) && forall h: Half :: IsFree(w.disk, h)
  {
    forall h: Half {
      StartOfHalf(pub, loc, h);
    }
  }

  ghost predicate SameRows(w: World, w': World) {
    Now(w'.disk, Published) == Now(w.disk, Published) && Now(w'.disk, Local) == Now(w.disk, Local)
  }

  /** The half has other rows, the other half those it had. */
  ghost predicate NewRows(w: World, w': World, h: Half, c: Content) {
    && Now(w'.disk, h) == Some(c)
    && var g := if h == Published then Local else Published; Now(w'.disk, g) == Now(w.disk, g)
  }

  /** The lock file of the half is that inode. */
  ghost predicate LocksOn(d: Disk, h: Half, i: Inode) {
    LockFile(h) in d.dir && d.dir[LockFile(h)] == i
  }

  /** A file that is in nobody's place, with these rows. */
  ghost predicate TempHolds(d: Disk, i: Inode, c: Content) {
    i < d.next && (forall p :: p in d.dir ==> d.dir[p] != i) && i in d.files && d.files[i] == Rows(c)
  }

  /** The lock file is there, and everything else is as it was. */
  ghost predicate MadeLock(d: Disk, h: Half, i: Inode, d': Disk) {
    && Placed(d') && LocksOn(d', h, i) && i !in d'.flock && d'.flock == d.flock
    && Now(d', Published) == Now(d, Published) && Now(d', Local) == Now(d, Local)
    && forall g :: g != h ==> (LockFile(g) in d'.dir <==> LockFile(g) in d.dir) && (LockFile(g) in d.dir ==> d'.dir[LockFile(g)] == d.dir[LockFile(g)])
  }

  lemma LockIsMade(d: Disk, h: Half)
    requires Placed(d) && IsFree(d, h)
    ensures MadeLock(d, h, LockInode(true, d, h), WithLockFile(true, d, h))
  {
    var d' := WithLockFile(true, d, h);
    forall g: Half ensures Now(d', g) == Now(d, g) {
    }
    forall g: Half | IndexFile(g) in d'.dir ensures Now(d', g).Some? {
      assert IndexFile(g) in d.dir;
    }
  }

  // ---------------------------------------------------------------- a writer

  lemma AskForLock(w: World, pid: Pid, h: Half, op: Op) returns (w': World, i: Inode)
    requires Placed(w.disk) && pid in w.procs && w.procs[pid].Idle? && IsFree(w.disk, h)
    ensures Placed(w'.disk) && OnTheWay(w, pid, w') && SameRows(w, w')
    ensures w'.procs == w.procs[pid := WantsLock(h, op, i)] && i !in w'.disk.flock && LocksOn(w'.disk, h, i)
  {
    var a := OpenLock(pid, h, op);
    i := LockInode(true, w.disk, h);
    w' := Step(true, w, a);
    OneStep(w, a);
    LockIsMade(w.disk, h);
  }

  lemma GetLock(w: World, pid: Pid) returns (w': World)
    requires Placed(w.disk) && pid in w.procs && w.procs[pid].WantsLock? && w.procs[pid].lock !in w.disk.flock
    requires LocksOn(w.disk, w.procs[pid].half, w.procs[pid].lock)
    ensures Placed(w'.disk) && OnTheWay(w, pid, w') && SameRows(w, w')
    ensures var p := w.procs[pid]; w'.procs == w.procs[pid := HasLock(p.half, p.op, p.lock)] && LocksOn(w'.disk, p.half, p.lock)
  {
    var a := TakeLock(pid);
    w' := Step(true, w, a);
    OneStep(w, a);
  }

  lemma ReReadRows(w: World, pid: Pid) returns (w': World)
    requires Placed(w.disk) && pid in w.procs && w.procs[pid].HasLock? && Now(w.disk, w.procs[pid].half).Some?
    ensures OnTheWay(w, pid, w') && w'.disk == w.disk
    ensures var p := w.procs[pid]; w'.procs == w.procs[pid := HasRead(p.half, p.op, p.lock, Now(w.disk, p.half).value)]
  {
    var a := ReadIndex(pid);
    w' := Step(true, w, a);
    OneStep(w, a);
  }

  lemma StartWriting(w: World, pid: Pid) returns (w': World)
    requires Placed(w.disk) && pid in w.procs && w.procs[pid].HasRead?
    ensures Placed(w'.disk) && OnTheWay(w, pid, w') && SameRows(w, w') && w'.disk.dir == w.disk.dir
    ensures var p, tmp := w.procs[pid], w.disk.next;
            w'.procs == w.procs[pid := Writing(p.half, p.op, p.lock, p.snapshot, tmp, p.op(p.snapshot))] && TempHolds(w'.disk, tmp, [])
  {
    var a := MakeTemp(pid);
    w' := Step(true, w, a);
    OneStep(w, a);
  }

  lemma WriteOne(w: World, pid: Pid, c: Content) returns (w': World)
    requires Placed(w.disk) && pid in w.procs && w.procs[pid].Writing? && w.procs[pid].todo != []
    requires TempHolds(w.disk, w.procs[pid].tmp, c)
    ensures Placed(w'.disk) && OnTheWay(w, pid, w') && SameRows(w, w') && w'.disk.dir == w.disk.dir
    ensures var p := w.procs[pid]; w'.procs == w.procs[pid := p.(todo := p.todo[1..])] && TempHolds(w'.disk, p.tmp, c + [p.todo[0]])
  {
    var a := WriteRow(pid);
    w' := Step(true, w, a);
    OneStep(w, a);
  }

  lemma PutInPlace(w: World, pid: Pid, c: Content) returns (w': World)
    requires Placed(w.disk) && pid in w.procs && w.procs[pid].Writing? && w.procs[pid].todo == []
    requires TempHolds(w.disk, w.procs[pid].tmp, c)
    ensures Placed(w'.disk) && OnTheWay(w, pid, w')
    ensures var p := w.procs[pid];
            && NewRows(w, w', p.half, c) && w'.procs == w.procs[pid := Replaced(p.half, p.lock)]
            && (LocksOn(w.disk, p.half, p.lock) ==> LocksOn(w'.disk, p.half, p.lock))
  {
    var a := Replace(pid);
    w' := Step(true, w, a);
    OneStep(w, a);
  }

  lemma LetGo(w: World, pid: Pid) returns (w': World)
    requires Placed(w.disk) && pid in w.procs
    ensures Placed(w'.disk) && OnTheWay(w, pid, w') && SameRows(w, w') && w'.procs == w.procs[pid := Idle]
    ensures forall h, i :: h in Holds(w.procs[pid]) && Holds(w.procs[pid])[h] == i && LocksOn(w.disk, h, i) ==> IsFree(w'.disk, h)
  {
    var a := Stop(pid);
    w' := Step(true, w, a);
    OneStep(w, a);
    forall h, i | h in Holds(w.procs[pid]) && Holds(w.procs[pid])[h] == i && LocksOn(w.disk, h, i) ensures IsFree(w'.disk, h) {
      assert i in Holds(w.procs[pid]).Values;
    }
  }

  lemma WriterIsDone(w: World, pid: Pid, c: Content) returns (w': World)
    requires Placed(w.disk) && pid in w.procs && w.procs[pid].Writing? && w.procs[pid].todo == []
    requires TempHolds(w.disk, w.procs[pid].tmp, c) && LocksOn(w.disk, w.procs[pid].half, w.procs[pid].lock)
    ensures Placed(w'.disk) && OnTheWay(w, pid, w') && w'.procs == w.procs[pid := Idle]
    ensures NewRows(w, w', w.procs[pid].half, c) && IsFree(w'.disk, w.procs[pid].half)
  {
    var mid := PutInPlace(w, pid, c);
    w' := LetGo(mid, pid);
    GoOn(w, pid, mid, w');
  }

  /** The rows still to do, the replace, the release. */
  lemma {:induction false} WriterFinishes(w: World, pid: Pid, c: Content) returns (w': World)
    requires Placed(w.disk) && pid in w.procs && w.procs[pid].Writing?
    requires TempHolds(w.disk, w.procs[pid].tmp, c) && LocksOn(w.disk, w.procs[pid].half, w.procs[pid].lock)
    ensures Placed(w'.disk) && OnTheWay(w, pid, w') && w'.procs == w.procs[pid := Idle]
    ensures NewRows(w, w', w.procs[pid].half, c + w.procs[pid].todo) && IsFree(w'.disk, w.procs[pid].half)
    decreases |w.procs[pid].todo|
  {
    var p := w.procs[pid];
    if p.todo == [] {
      w' := WriterIsDone(w, pid, c);
      assert c + [] == c;
    } else {
      var mid := WriteOne(w, pid, c);
      w' := WriterFinishes(mid, pid, c + [p.todo[0]]);
      GoOn(w, pid, mid, w');
      assert c + [p.todo[0]] + p.todo[1..] == c + p.todo;
    }
  }

  lemma WriterWrites(w: World, pid: Pid) returns (w': World)
    requires Placed(w.disk) && pid in w.procs && w.procs[pid].HasRead? && LocksOn(w.disk, w.procs[pid].half, w.procs[pid].lock)
    ensures Placed(w'.disk) && OnTheWay(w, pid, w') && w'.procs == w.procs[pid := Idle]
    ensures var p := w.procs[pid]; NewRows(w, w', p.half, p.op(p.snapshot)) && IsFree(w'.disk, p.half)
  {
    var p := w.procs[pid];
    var mid := StartWriting(w, pid);
    w' := WriterFinishes(mid, pid, []);
    GoOn(w, pid, mid, w');
    assert [] + p.op(p.snapshot) == p.op(p.snapshot);
  }

  lemma WriterGoesOn(w: World, pid: Pid) returns (w': World)
    requires Placed(w.disk) && pid in w.procs && w.procs[pid].HasLock? && Now(w.disk, w.procs[pid].half).Some?
    requires LocksOn(w.disk, w.procs[pid].half, w.procs[pid].lock)
    ensures Placed(w'.disk) && OnTheWay(w, pid, w') && w'.procs == w.procs[pid := Idle]
    ensures var p := w.procs[pid]; NewRows(w, w', p.half, p.op(Now(w.disk, p.half).value)) && IsFree(w'.disk, p.half)
  {
    var read := ReReadRows(w, pid);
    w' := WriterWrites(read, pid);
    GoOn(w, pid, read, w');
  }

  lemma WriterLocks(w: World, pid: Pid, h: Half, op: Op) returns (w': World, i: Inode)
    requires Placed(w.disk) && pid in w.procs && w.procs[pid].Idle? && IsFree(w.disk, h)
    ensures Placed(w'.disk) && OnTheWay(w, pid, w') && SameRows(w, w')
    ensures w'.procs == w.procs[pid := HasLock(h, op, i)] && LocksOn(w'.disk, h, i)
  {
    var asked;
    asked, i := AskForLock(w, pid, h, op);
    w' := GetLock(asked, pid);
    GoOn(w, pid, asked, w');
  }

  /** A writer that finds the lock free leaves the half as its transformation of it, the other as it was, and the lock free. */
  lemma WriterInstalls(w: World, pid: Pid, h: Half, op: Op) returns (w': World)
    requires Placed(w.disk) && pid in w.procs && w.procs[pid].Idle? && IsFree(w.disk, h) && Now(w.disk, h).Some?
    ensures Placed(w'.disk) && Alone(w, pid, w') && w'.procs == w.procs && IsFree(w'.disk, h)
    ensures NewRows(w, w', h, op(Now(w.disk, h).value))
  {
    var locked, i := WriterLocks(w, pid, h, op);
    w' := WriterGoesOn(locked, pid);
    GoOn(w, pid, locked, w');
    Arrived(w, pid, w');
    assert w.procs[pid := Idle] == w.procs;
  }

  // ---------------------------------------------------------------- a reader

  lemma {:induction false} ReaderFinishes(w: World, pid: Pid, content: Content) returns (w': World)
    requires pid in w.procs && w.procs[pid].Reading? && w.procs[pid].file in w.disk.files
    requires w.disk.files[w.procs[pid].file] == Rows(content) && w.procs[pid].got <= content
    ensures OnTheWay(w, pid, w') && w'.disk == w.disk
    ensures w'.procs == w.procs[pid := DoneReading(w.procs[pid].half, content, w.procs[pid].since)]
    decreases |content| - |w.procs[pid].got|
  {
    var p := w.procs[pid];
    if |p.got| < |content| {
      var a := ReadRow(pid);
      OneStep(w, a);
      w' := ReaderFinishes(Step(true, w, a), pid, content);
      GoOn(w, pid, Step(true, w, a), w');
    } else {
      assert p.got == content;
      w' := Step(true, w, FinishRead(pid));
      OneStep(w, FinishRead(pid));
    }
  }

  /** A reader gets the rows the half has. */
  lemma ReaderReads(w: World, pid: Pid, h: Half) returns (w': World)
    requires Placed(w.disk) && pid in w.procs && w.procs[pid].Idle? && Now(w.disk, h).Some?
    ensures Alone(w, pid, w') && w'.disk == w.disk
    ensures pid in w'.procs && w'.procs[pid].DoneReading? && w'.procs[pid].got == Now(w.disk, h).value
  {
    var a := StartRead(pid, h);
    OneStep(w, a);
    w' := ReaderFinishes(Step(true, w, a), pid, Now(w.disk, h).value);
    GoOn(w, pid, Step(true, w, a), w');
    Arrived(w, pid, w');
  }

  // ---------------------------------------------------------------- a builder

  /** Every lock taken is that of its half. */
  ghost predicate LocksHeld(d: Disk, locks: map<Half, Inode>) {
    forall h :: h in locks ==> LocksOn(d, h, locks[h])
  }

  /** The locks still to take are free. */
  ghost predicate RestFree(d: Disk, want: set<Half>, locks: map<Half, Inode>) {
    forall h :: h in want && h !in locks ==> IsFree(d, h)
  }

  /** A lock file is there and locked; everything else is as it was. */
  ghost predicate LockedNow(d: Disk, h: Half, i: Inode, d': Disk) {
    && Placed(d') && LocksOn(d', h, i) && Now(d', Published) == Now(d, Published) && Now(d', Local) == Now(d, Local)
    && var g := if h == Published then Local else Published;
    (IsFree(d, g) ==> IsFree(d', g)) && forall j :: LocksOn(d, g, j) ==> LocksOn(d', g, j)
  }

  lemma LockDisk(d: Disk, h: Half, i: Inode, made: Disk, pid: Pid)
    requires Placed(d) && MadeLock(d, h, i, made)
    ensures LockedNow(d, h, i, made.(flock := made.flock[i := pid]))
  {
    var d' := made.(flock := made.flock[i := pid]);
    var g := if h == Published then Local else Published;
    assert forall f: Half :: Now(d', f) == Now(made, f);
    assert IsFree(d, g) ==> IsFree(d', g);
    assert forall j :: LocksOn(d, g, j) ==> LocksOn(d', g, j);
  }

  lemma TakeNextLock(w: World, pid: Pid, h: Half) returns (w': World, i: Inode)
    requires Placed(w.disk) && pid in w.procs && w.procs[pid].Snapshotting? && w.procs[pid].snaps == []
    requires NextWanted(w.procs[pid].want, w.procs[pid].locks.Keys) == Some(h) && IsFree(w.disk, h)
    ensures OnTheWay(w, pid, w') && LockedNow(w.disk, h, i, w'.disk)
    ensures var p := w.procs[pid]; w'.procs == w.procs[pid := Snapshotting(p.want, p.locks[h := i], [])]
  {
    var a := TakeBuildLock(pid);
    i := LockInode(true, w.disk, h);
    w' := Step(true, w, a);
    OneStep(w, a);
    LockIsMade(w.disk, h);
    LockDisk(w.disk, h, i, WithLockFile(true, w.disk, h), pid);
  }

  lemma NoneWanted(want: set<Half>, done: set<Half>)
    ensures NextWanted(want, done).None? <==> want <= done
  {
    if NextWanted(want, done).None? {
      forall h | h in want ensures h in done {
        match h
        case Published =>
        case Local =>
      }
    }
  }

  lemma StillHeld(d: Disk, d': Disk, h: Half, i: Inode, want: set<Half>, locks: map<Half, Inode>)
    requires LockedNow(d, h, i, d') && LocksHeld(d, locks) && RestFree(d, want, locks)
    ensures LocksHeld(d', locks[h := i]) && RestFree(d', want, locks[h := i])
  {
    forall g | g in locks && g != h ensures LocksOn(d', g, locks[g]) {
      assert g == if h == Published then Local else Published;
    }
    forall g | g in want && g !in locks && g != h ensures IsFree(d', g) {
      assert g == if h == Published then Local else Published;
    }
  }

  lemma TakeLocks(w: World, pid: Pid) returns (w': World, locks: map<Half, Inode>)
    requires Placed(w.disk) && pid in w.procs && w.procs[pid].Snapshotting? && w.procs[pid].snaps == []
    requires LocksHeld(w.disk, w.procs[pid].locks) && RestFree(w.disk, w.procs[pid].want, w.procs[pid].locks)
    ensures Placed(w'.disk) && OnTheWay(w, pid, w') && SameRows(w, w')
    ensures w'.procs == w.procs[pid := Snapshotting(w.procs[pid].want, locks, [])]
    ensures LocksHeld(w'.disk, locks) && w.procs[pid].want <= locks.Keys
    decreases (if Published in w.procs[pid].locks then 0 else 1) + if Local in w.procs[pid].locks then 0 else 1
  {
    var p := w.procs[pid];
    NoneWanted(p.want, p.locks.Keys);
    if NextWanted(p.want, p.locks.Keys).Some? {
      var h := NextWanted(p.want, p.locks.Keys).value;
      var mid, i := TakeNextLock(w, pid, h);
      StillHeld(w.disk, mid.disk, h, i, p.want, p.locks);
      w', locks := TakeLocks(mid, pid);
      GoOn(w, pid, mid, w');
    } else {
      w', locks := w, p.locks;
    }
  }

  lemma SnapshotNext(w: World, pid: Pid, h: Half, stat: Stat) returns (w': World)
    requires pid in w.procs && w.procs[pid].Snapshotting? && Now(w.disk, h).Some?
    requires NextWanted(w.procs[pid].want, w.procs[pid].locks.Keys).None?
    requires NextWanted(w.procs[pid].want, HalvesOf(w.procs[pid].snaps)) == Some(h)
    ensures OnTheWay(w, pid, w') && w'.disk == w.disk
    ensures var p := w.procs[pid];
            w'.procs == w.procs[pid := Snapshotting(p.want, p.locks, p.snaps + [Snapshot(h, Now(w.disk, h).value, stat)])]
  {
    var a := TakeSnapshot(pid, stat);
    w' := Step(true, w, a);
    OneStep(w, a);
  }

  /** The halves wanted as they are now, the published one first. */
  ghost function SnapsOf(d: Disk, want: set<Half>, stat: Stat): seq<Snapshot>
    requires forall h :: h in want ==> Now(d, h).Some?
  {
    (if Published in want then [Snapshot(Published, Now(d, Published).value, stat)] else [])
    + (if Local in want then [Snapshot(Local, Now(d, Local).value, stat)] else [])
  }

  lemma HalvesOfSnaps(d: Disk, want: set<Half>, stat: Stat)
    requires forall h :: h in want ==> Now(d, h).Some?
    ensures HalvesOf([]) == {} && HalvesOf(SnapsOf(d, want, stat)) == want && InSourceOrder(SnapsOf(d, want, stat))
    ensures Published in want ==> HalvesOf([Snapshot(Published, Now(d, Published).value, stat)]) == {Published}
  {
    var snaps := SnapsOf(d, want, stat);
    forall h ensures h in HalvesOf(snaps) <==> h in want {
      if h in want {
        var k := if h == Published then 0 else |snaps| - 1;
        assert snaps[k].half == h;
      }
    }
    if Published in want {
      assert [Snapshot(Published, Now(d, Published).value, stat)][0].half == Published;
    }
  }

  lemma TakeSnapshots(w: World, pid: Pid, stat: Stat) returns (w': World)
    requires pid in w.procs && w.procs[pid].Snapshotting? && w.procs[pid].snaps == []
    requires NextWanted(w.procs[pid].want, w.procs[pid].locks.Keys).None? && forall h :: h in w.procs[pid].want ==> Now(w.disk, h).Some?
    ensures OnTheWay(w, pid, w') && w'.disk == w.disk
    ensures var p := w.procs[pid]; w'.procs == w.procs[pid := Snapshotting(p.want, p.locks, SnapsOf(w.disk, p.want, stat))]
  {
    var p := w.procs[pid];
    HalvesOfSnaps(w.disk, p.want, stat);
    var first := w;
    if Published in p.want {
      first := SnapshotNext(w, pid, Published, stat);
      assert first.procs[pid].snaps == [Snapshot(Published, Now(w.disk, Published).value, stat)];
    }
    w' := first;
    if Local in p.want {
      w' := SnapshotNext(first, pid, Local, stat);
      GoOn(w, pid, first, w');
    }
    assert w'.procs[pid].snaps == SnapsOf(w.disk, p.want, stat);
  }

  lemma StartFill(w: World, pid: Pid) returns (w': World)
    requires Placed(w.disk) && pid in w.procs && w.procs[pid].Snapshotting? && LocksHeld(w.disk, w.procs[pid].locks)
    requires NextWanted(w.procs[pid].want, w.procs[pid].locks.Keys).None? && NextWanted(w.procs[pid].want, HalvesOf(w.procs[pid].snaps)).None?
    ensures Placed(w'.disk) && OnTheWay(w, pid, w') && SameRows(w, w')
    ensures var p, tmp := w.procs[pid], w.disk.next;
            && w'.procs == w.procs[pid := Building(p.snaps, tmp, 0)] && FillHolds(w'.disk, tmp, EMPTY, p.snaps)
            && forall h :: h in p.locks ==> IsFree(w'.disk, h)
  {
    var a := StartFilling(pid);
    w' := Step(true, w, a);
    OneStep(w, a);
    forall h | h in w.procs[pid].locks ensures IsFree(w'.disk, h) {
      assert w.procs[pid].locks[h] in Holds(w.procs[pid]).Values;
    }
  }

  /** A file that is in nobody's place, with the tables filled so far. */
  ghost predicate FillHolds(d: Disk, i: Inode, db: Db, snaps: seq<Snapshot>) {
    i < d.next && (forall p :: p in d.dir ==> d.dir[p] != i) && i in d.files && d.files[i] == Database(db, snaps)
  }

  ghost predicate SameLocks(d: Disk, d': Disk) {
    forall h: Half :: IsFree(d, h) ==> IsFree(d', h)
  }

  /** A file that is in nobody's place gets other contents. */
  lemma OtherFile(d: Disk, tmp: Inode, f: File)
    requires Placed(d) && tmp < d.next && forall p :: p in d.dir ==> d.dir[p] != tmp
    ensures var d' := d.(files := d.files[tmp := f]);
            Placed(d') && Now(d', Published) == Now(d, Published) && Now(d', Local) == Now(d, Local) && SameLocks(d, d')
  {
    var d' := d.(files := d.files[tmp := f]);
    assert forall h: Half :: Now(d', h) == Now(d, h);
  }

  lemma FillNext(w: World, pid: Pid, snaps: seq<Snapshot>, tmp: Inode, k: nat, db: Db, more: Db) returns (w': World)
    requires Placed(w.disk) && pid in w.procs && w.procs[pid] == Building(snaps, tmp, k) && k < |snaps|
    requires FillHolds(w.disk, tmp, db, snaps) && more == AddSource(db, snaps[k])
    ensures Placed(w'.disk) && OnTheWay(w, pid, w') && SameRows(w, w') && SameLocks(w.disk, w'.disk)
    ensures w'.procs == w.procs[pid := Building(snaps, tmp, k + 1)] && FillHolds(w'.disk, tmp, more, snaps)
  {
    var a := FillSource(pid);
    w' := Step(true, w, a);
    OneStep(w, a);
    OtherFile(w.disk, tmp, Database(more, snaps));
    assert w'.disk == w.disk.(files := w.disk.files[tmp := Database(more, snaps)]);
  }

  /** The tables as they are after each of the sources. */
  ghost predicate AreTables(dbs: seq<Db>, snaps: seq<Snapshot>) {
    |dbs| == |snaps| + 1 && forall k :: 0 <= k < |snaps| ==> dbs[k + 1] == AddSource(dbs[k], snaps[k])
  }

  lemma {:induction false} FillAll(w: World, pid: Pid, snaps: seq<Snapshot>, tmp: Inode, k: nat, dbs: seq<Db>) returns (w': World)
    requires Placed(w.disk) && pid in w.procs && w.procs[pid] == Building(snaps, tmp, k) && k <= |snaps|
    requires AreTables(dbs, snaps) && FillHolds(w.disk, tmp, dbs[k], snaps)
    ensures Placed(w'.disk) && OnTheWay(w, pid, w') && SameRows(w, w') && SameLocks(w.disk, w'.disk)
    ensures w'.procs == w.procs[pid := Building(snaps, tmp, |snaps|)] && FillHolds(w'.disk, tmp, dbs[|snaps|], snaps)
    decreases |snaps| - k
  {
    w' := w;
    if k < |snaps| {
      var mid := FillNext(w, pid, snaps, tmp, k, dbs[k], dbs[k + 1]);
      w' := FillAll(mid, pid, snaps, tmp, k + 1, dbs);
      GoOn(w, pid, mid, w');
    }
  }

  lemma NextTables(snaps: seq<Snapshot>, k: nat)
    requires k < |snaps|
    ensures Tables(snaps[..k + 1]) == AddSource(Tables(snaps[..k]), snaps[k])
  {
    assert snaps[..k + 1][..k] == snaps[..k];
  }

  lemma TablesAlong(snaps: seq<Snapshot>) returns (dbs: seq<Db>)
    ensures AreTables(dbs, snaps) && dbs[0] == EMPTY && dbs[|snaps|] == Tables(snaps)
  {
    dbs := seq(|snaps| + 1, k requires 0 <= k <= |snaps| => Tables(snaps[..k]));
    forall k | 0 <= k < |snaps| ensures dbs[k + 1] == AddSource(dbs[k], snaps[k]) {
      NextTables(snaps, k);
    }
    assert snaps[..0] == [] && snaps[..|snaps|] == snaps;
  }

  /** The database in place now. */
  ghost function DbNow(d: Disk): Option<Db> {
    if DbFile in d.dir && d.dir[DbFile] in d.files && d.files[d.dir[DbFile]].Database? then Some(d.files[d.dir[DbFile]].db) else None
  }

  lemma PutDbInPlace(w: World, pid: Pid, db: Db) returns (w': World)
    requires Placed(w.disk) && pid in w.procs && w.procs[pid].Building? && w.procs[pid].filled == |w.procs[pid].snaps|
    requires FillHolds(w.disk, w.procs[pid].tmp, db, w.procs[pid].snaps)
    ensures Placed(w'.disk) && OnTheWay(w, pid, w') && SameRows(w, w') && SameLocks(w.disk, w'.disk)
    ensures w'.procs == w.procs[pid := Idle] && DbNow(w'.disk) == Some(Complete(db))
  {
    var a := ReplaceDb(pid);
    w' := Step(true, w, a);
    OneStep(w, a);
  }

  /** The files the halves are now. */
  ghost function FilesNow(d: Disk): map<Half, Content> {
    map h: Half | h in {Published, Local} && Now(d, h).Some? :: Now(d, h).value
  }

  lemma SnapsHoldTheFiles(d: Disk, want: set<Half>, stat: Stat)
    requires forall h: Half :: h in want <==> Now(d, h).Some?
    ensures FilesOf(SnapsOf(d, want, stat)) == FilesNow(d)
  {
    FilesOfSnaps(d, want, stat);
    forall h: Half ensures h in FilesOf(SnapsOf(d, want, stat)) <==> h in FilesNow(d) {
      match h
      case Published =>
      case Local =>
    }
  }

  lemma FilesOfSnaps(d: Disk, want: set<Half>, stat: Stat)
    requires forall h: Half :: h in want ==> Now(d, h).Some?
    ensures var files := FilesOf(SnapsOf(d, want, stat));
            forall h: Half :: (h in files <==> h in want) && (h in want ==> files[h] == Now(d, h).value)
  {
    if Published in want {
      var p := Snapshot(Published, Now(d, Published).value, stat);
      if Local in want {
        var l := Snapshot(Local, Now(d, Local).value, stat);
        assert SnapsOf(d, want, stat) == [p, l];
        FilesAndEntriesOfTwo(p, l);
      } else {
        assert SnapsOf(d, want, stat) == [p];
        FilesAndEntriesOfTwo(p, p);
      }
    } else if Local in want {
      var l := Snapshot(Local, Now(d, Local).value, stat);
      assert SnapsOf(d, want, stat) == [l];
      FilesAndEntriesOfTwo(l, l);
    } else {
      assert SnapsOf(d, want, stat) == [] && FilesOf([]) == map[];
    }
    forall h: Half ensures h in FilesOf(SnapsOf(d, want, stat)) <==> h in want {
      match h
      case Published =>
      case Local =>
    }
  }

  lemma BuildsTheFiles(d: Disk, want: set<Half>, stat: Stat)
    requires forall h: Half :: h in want <==> Now(d, h).Some?
    ensures Fresh(Complete(Tables(SnapsOf(d, want, stat))), FilesNow(d))
  {
    HalvesOfSnaps(d, want, stat);
    SnapsHoldTheFiles(d, want, stat);
    FreshIffUnmoved(SnapsOf(d, want, stat), FilesNow(d));
  }

  lemma SnapsAreSame(w: World, w': World, want: set<Half>, stat: Stat)
    requires SameRows(w, w') && forall h :: h in want ==> Now(w.disk, h).Some?
    ensures (forall h :: h in want ==> Now(w'.disk, h).Some?) && SnapsOf(w'.disk, want, stat) == SnapsOf(w.disk, want, stat)
    ensures FilesNow(w'.disk) == FilesNow(w.disk)
  {
    forall h: Half ensures Now(w'.disk, h) == Now(w.disk, h) {
      match h
      case Published =>
      case Local =>
    }
  }

  lemma BuilderReads(w: World, pid: Pid, want: set<Half>, stat: Stat) returns (w': World, locks: map<Half, Inode>)
    requires Placed(w.disk) && pid in w.procs && w.procs[pid].Idle? && forall h :: h in want ==> IsFree(w.disk, h) && Now(w.disk, h).Some?
    ensures Placed(w'.disk) && OnTheWay(w, pid, w') && SameRows(w, w')
    ensures LocksHeld(w'.disk, locks) && want <= locks.Keys
    ensures w'.procs == w.procs[pid := Snapshotting(want, locks, SnapsOf(w.disk, want, stat))]
  {
    var a := StartBuild(pid, want);
    var started := Step(true, w, a);
    OneStep(w, a);
    var locked;
    locked, locks := TakeLocks(started, pid);
    NoneWanted(want, locks.Keys);
    SnapsAreSame(w, locked, want, stat);
    w' := TakeSnapshots(locked, pid, stat);
    GoOn(w, pid, started, locked);
    GoOn(w, pid, locked, w');
  }

  /** A builder that finds the locks free puts in place a database that is fresh, and leaves the locks free. */
  lemma BuilderBuilds(w: World, pid: Pid, want: set<Half>, stat: Stat) returns (w': World)
    requires Placed(w.disk) && pid in w.procs && w.procs[pid].Idle? && forall h: Half :: h in want <==> Now(w.disk, h).Some?
    requires forall h :: h in want ==> IsFree(w.disk, h)
    ensures Placed(w'.disk) && Alone(w, pid, w') && SameRows(w, w') && w'.procs == w.procs && forall h :: h in want ==> IsFree(w'.disk, h)
    ensures DbNow(w'.disk).Some? && Fresh(DbNow(w'.disk).value, FilesNow(w'.disk))
  {
    var read, locks := BuilderReads(w, pid, want, stat);
    HalvesOfSnaps(w.disk, want, stat);
    NoneWanted(want, want);
    NoneWanted(want, locks.Keys);
    w' := BuilderFills(read, pid);
    GoOn(w, pid, read, w');
    Arrived(w, pid, w');
    BuildsTheFiles(w.disk, want, stat);
    SnapsAreSame(w, w', want, stat);
    assert w.procs[pid := Idle] == w.procs;
  }

  lemma BuilderFills(w: World, pid: Pid) returns (w': World)
    requires Placed(w.disk) && pid in w.procs && w.procs[pid].Snapshotting? && LocksHeld(w.disk, w.procs[pid].locks)
    requires NextWanted(w.procs[pid].want, w.procs[pid].locks.Keys).None? && NextWanted(w.procs[pid].want, HalvesOf(w.procs[pid].snaps)).None?
    ensures Placed(w'.disk) && OnTheWay(w, pid, w') && SameRows(w, w') && w'.procs == w.procs[pid := Idle]
    ensures DbNow(w'.disk) == Some(Complete(Tables(w.procs[pid].snaps))) && forall h :: h in w.procs[pid].locks ==> IsFree(w'.disk, h)
  {
    var snaps := w.procs[pid].snaps;
    var started := StartFill(w, pid);
    w' := BuilderPuts(started, pid, snaps, w.disk.next);
    GoOn(w, pid, started, w');
  }

  lemma BuilderPuts(w: World, pid: Pid, snaps: seq<Snapshot>, tmp: Inode) returns (w': World)
    requires Placed(w.disk) && pid in w.procs && w.procs[pid] == Building(snaps, tmp, 0) && FillHolds(w.disk, tmp, EMPTY, snaps)
    ensures Placed(w'.disk) && OnTheWay(w, pid, w') && SameRows(w, w') && SameLocks(w.disk, w'.disk)
    ensures w'.procs == w.procs[pid := Idle] && DbNow(w'.disk) == Some(Complete(Tables(snaps)))
  {
    var dbs := TablesAlong(snaps);
    var filled := FillAll(w, pid, snaps, tmp, 0, dbs);
    w' := PutDbInPlace(filled, pid, dbs[|snaps|]);
    GoOn(w, pid, filled, w');
  }

  // ---------------------------------------------------------------- an open

  lemma OpenHashes(w: World, pid: Pid, h: Half) returns (w': World)
    requires pid in w.procs && w.procs[pid].Opening? && w.procs[pid].current.None? && h !in w.procs[pid].hashed && Now(w.disk, h).Some?
    ensures OnTheWay(w, pid, w') && w'.disk == w.disk
    ensures var p := w.procs[pid]; w'.procs == w.procs[pid := Opening(p.file, p.hashed[h := Now(w.disk, h).value], None, p.began)]
  {
    var a, b := OpenSource(pid, h), HashSource(pid);
    var mid := Step(true, w, a);
    w' := Step(true, mid, b);
    OneStep(w, a);
    OneStep(mid, b);
    GoOn(w, pid, mid, w');
  }

  /** Hashes the halves that are there. */
  lemma OpenHashesAll(w: World, pid: Pid) returns (w': World)
    requires Placed(w.disk) && pid in w.procs && w.procs[pid].Opening? && w.procs[pid].current.None? && w.procs[pid].hashed == map[]
    ensures OnTheWay(w, pid, w') && w'.disk == w.disk
    ensures var p := w.procs[pid]; w'.procs == w.procs[pid := Opening(p.file, FilesNow(w.disk), None, p.began)]
  {
    var first := w;
    if Now(w.disk, Published).Some? {
      first := OpenHashes(w, pid, Published);
    }
    w' := first;
    if Now(w.disk, Local).Some? {
      w' := OpenHashes(first, pid, Local);
      GoOn(w, pid, first, w');
    }
    assert w'.procs[pid].hashed == FilesNow(w.disk);
  }

  lemma FilesArePresent(d: Disk)
    requires Placed(d)
    ensures FilesNow(d).Keys == Present(d)
  {
    forall h: Half ensures h in FilesNow(d) <==> h in Present(d) {
      match h
      case Published => assert SOURCES[0] == h;
      case Local => assert SOURCES[1] == h;
    }
  }

  /** An open returns if the database in place is fresh against the files as they are, the published half among them. */
  lemma OpenReturns(w: World, pid: Pid) returns (w': World)
    requires Placed(w.disk) && pid in w.procs && w.procs[pid].Idle?
    requires DbNow(w.disk).Some? && Fresh(DbNow(w.disk).value, FilesNow(w.disk)) && Now(w.disk, Published).Some?
    ensures Alone(w, pid, w') && w'.disk == w.disk && pid in w'.procs
    ensures w'.procs[pid].Opened? && w'.procs[pid].file == w.disk.dir[DbFile] && w'.procs[pid].hashed == FilesNow(w.disk)
  {
    var a, b := StartOpen(pid), Accept(pid);
    var started := Step(true, w, a);
    OneStep(w, a);
    var hashed := OpenHashesAll(started, pid);
    FilesArePresent(w.disk);
    assert Published in FilesNow(w.disk);
    w' := Step(true, hashed, b);
    OneStep(hashed, b);
    GoOn(w, pid, started, hashed);
    GoOn(w, pid, hashed, w');
    Arrived(w, pid, w');
  }

  // ---------------------------------------------------------------- a mover

  lemma MoveRow(w: World, pid: Pid, m: Mover, c: Content) returns (w': World)
    requires Placed(w.disk) && pid in w.procs && w.procs[pid] == Publishing(m) && m.Moving? && m.left != [] && TempHolds(w.disk, m.tmp, c)
    ensures Placed(w'.disk) && OnTheWay(w, pid, w') && SameRows(w, w') && w'.disk.dir == w.disk.dir
    ensures w'.procs == w.procs[pid := Publishing(m.(left := m.left[1..]))] && TempHolds(w'.disk, m.tmp, c + [m.left[0]])
  {
    var a := MoveOn(pid);
    w' := Step(true, w, a);
    OneStep(w, a);
  }

  lemma {:induction false} MoveRows(w: World, pid: Pid, m: Mover, c: Content) returns (w': World)
    requires Placed(w.disk) && pid in w.procs && w.procs[pid] == Publishing(m) && m.Moving? && TempHolds(w.disk, m.tmp, c)
    ensures Placed(w'.disk) && OnTheWay(w, pid, w') && SameRows(w, w') && w'.disk.dir == w.disk.dir
    ensures w'.procs == w.procs[pid := Publishing(m.(left := []))] && TempHolds(w'.disk, m.tmp, c + m.left)
    decreases |m.left|
  {
    if m.left == [] {
      w' := w;
      assert c + [] == c;
    } else {
      var mid := MoveRow(w, pid, m, c);
      w' := MoveRows(mid, pid, m.(left := m.left[1..]), c + [m.left[0]]);
      GoOn(w, pid, mid, w');
      assert c + [m.left[0]] + m.left[1..] == c + m.left;
    }
  }

  lemma MovePuts(w: World, pid: Pid, m: Mover, c: Content) returns (w': World)
    requires Placed(w.disk) && pid in w.procs && w.procs[pid] == Publishing(m) && m.Moving? && m.left == [] && TempHolds(w.disk, m.tmp, c)
    ensures Placed(w'.disk) && OnTheWay(w, pid, w') && NewRows(w, w', m.half, c)
    ensures w'.procs == w.procs[pid := Publishing(if m.half == Published then HalfMoved(m.move, m.held, m.pub, m.loc)
                                                  else BothMoved(m.move, m.held, m.pub, m.loc))]
    ensures forall h: Half :: LockFile(h) in w.disk.dir ==> LockFile(h) in w'.disk.dir && w'.disk.dir[LockFile(h)] == w.disk.dir[LockFile(h)]
  {
    var a := MoveOn(pid);
    w' := Step(true, w, a);
    OneStep(w, a);
  }

  lemma MoveHalf(w: World, pid: Pid, m: Mover, c: Content) returns (w': World)
    requires Placed(w.disk) && pid in w.procs && w.procs[pid] == Publishing(m) && m.Moving? && TempHolds(w.disk, m.tmp, c)
    requires LocksHeld(w.disk, m.held)
    ensures Placed(w'.disk) && OnTheWay(w, pid, w') && NewRows(w, w', m.half, c + m.left) && LocksHeld(w'.disk, m.held)
    ensures w'.procs == w.procs[pid := Publishing(if m.half == Published then HalfMoved(m.move, m.held, m.pub, m.loc)
                                                  else BothMoved(m.move, m.held, m.pub, m.loc))]
  {
    var mid := MoveRows(w, pid, m, c);
    w' := MovePuts(mid, pid, m.(left := []), c + m.left);
    GoOn(w, pid, mid, w');
  }

  lemma MoveSecond(w: World, pid: Pid, m: Mover) returns (w': World)
    requires Placed(w.disk) && pid in w.procs && w.procs[pid] == Publishing(m) && m.HalfMoved? && LocksHeld(w.disk, m.held)
    ensures Placed(w'.disk) && OnTheWay(w, pid, w') && SameRows(w, w') && LocksHeld(w'.disk, m.held)
    ensures w'.procs == w.procs[pid := Publishing(Moving(m.move, m.held, m.pub, m.loc, Local, w.disk.next, m.move.drop(m.loc)))]
    ensures TempHolds(w'.disk, w.disk.next, [])
  {
    var a := MoveOn(pid);
    w' := Step(true, w, a);
    OneStep(w, a);
  }

  lemma MoveStarts(w: World, pid: Pid, move: Move, locks: map<Half, Inode>, pub: Content, loc: Content, stat: Stat) returns (w': World)
    requires Placed(w.disk) && pid in w.procs && {Published, Local} <= locks.Keys && LocksHeld(w.disk, locks)
    requires w.procs[pid] == Snapshotting({Published, Local}, locks, [Snapshot(Published, pub, stat), Snapshot(Local, loc, stat)])
    ensures Placed(w'.disk) && OnTheWay(w, pid, w') && SameRows(w, w') && LocksHeld(w'.disk, locks)
    ensures w'.procs == w.procs[pid := Publishing(Moving(move, locks, pub, loc, Published, w.disk.next, move.publish(pub)))]
    ensures TempHolds(w'.disk, w.disk.next, [])
  {
    var a := StartMove(pid, move);
    var snaps := w.procs[pid].snaps;
    assert snaps[0].half == Published && snaps[1].half == Local;
    NoneWanted({Published, Local}, locks.Keys);
    NoneWanted({Published, Local}, HalvesOf(snaps));
    w' := Step(true, w, a);
    NewTempIsEmpty(w.disk, w'.disk, locks);
    assert OnTheWay(w, pid, w') by {
      OneStep(w, a);
    }
  }

  lemma NewTempIsEmpty(d: Disk, d': Disk, locks: map<Half, Inode>)
    requires Placed(d) && LocksHeld(d, locks) && d' == WithNewTemp(d)
    ensures Placed(d') && LocksHeld(d', locks) && TempHolds(d', d.next, [])
    ensures Now(d', Published) == Now(d, Published) && Now(d', Local) == Now(d, Local)
  {
  }

  lemma MoveRest(w: World, pid: Pid, m: Mover) returns (w': World)
    requires Placed(w.disk) && pid in w.procs && w.procs[pid] == Publishing(m) && m.HalfMoved? && LocksHeld(w.disk, m.held)
    ensures Placed(w'.disk) && OnTheWay(w, pid, w') && NewRows(w, w', Local, m.move.drop(m.loc)) && LocksHeld(w'.disk, m.held)
    ensures w'.procs == w.procs[pid := Publishing(BothMoved(m.move, m.held, m.pub, m.loc))]
  {
    var second := MoveSecond(w, pid, m);
    w' := MoveHalf(second, pid, Moving(m.move, m.held, m.pub, m.loc, Local, w.disk.next, m.move.drop(m.loc)), []);
    GoOn(w, pid, second, w');
    assert [] + m.move.drop(m.loc) == m.move.drop(m.loc);
  }

  /** Both halves are what the move makes of what was re-read. */
  lemma MoveFinishes(w: World, pid: Pid, m: Mover) returns (w': World)
    requires Placed(w.disk) && pid in w.procs && w.procs[pid] == Publishing(m) && m.Moving? && m.half == Published
    requires TempHolds(w.disk, m.tmp, []) && LocksHeld(w.disk, m.held) && m.left == m.move.publish(m.pub)
    ensures Placed(w'.disk) && OnTheWay(w, pid, w') && LocksHeld(w'.disk, m.held)
    ensures w'.procs == w.procs[pid := Publishing(BothMoved(m.move, m.held, m.pub, m.loc))]
    ensures Now(w'.disk, Published) == Some(m.move.publish(m.pub)) && Now(w'.disk, Local) == Some(m.move.drop(m.loc))
  {
    assert [] + m.left == m.left;
    var half := MoveHalf(w, pid, m, []);
    w' := MoveRest(half, pid, HalfMoved(m.move, m.held, m.pub, m.loc));
    GoOn(w, pid, half, w');
  }

  lemma MoveLetsGo(w: World, pid: Pid, m: Mover) returns (w': World)
    requires Placed(w.disk) && pid in w.procs && w.procs[pid] == Publishing(m) && m.BothMoved? && LocksHeld(w.disk, m.held)
    requires {Published, Local} <= m.held.Keys
    ensures Placed(w'.disk) && OnTheWay(w, pid, w') && SameRows(w, w') && w'.procs == w.procs[pid := Idle]
    ensures IsFree(w'.disk, Published) && IsFree(w'.disk, Local)
  {
    w' := LetGo(w, pid);
    assert LocksOn(w.disk, Published, m.held[Published]) && LocksOn(w.disk, Local, m.held[Local]);
  }

  /** A mover that finds both locks free leaves both halves as its move of them, and the locks free. */
  lemma MoverMovesBoth(w: World, pid: Pid, move: Move) returns (w': World)
    requires Placed(w.disk) && pid in w.procs && w.procs[pid].Idle?
    requires forall h: Half :: IsFree(w.disk, h) && Now(w.disk, h).Some?
    ensures Placed(w'.disk) && Alone(w, pid, w') && w'.procs == w.procs && IsFree(w'.disk, Published) && IsFree(w'.disk, Local)
    ensures Now(w'.disk, Published) == Some(move.publish(Now(w.disk, Published).value))
    ensures Now(w'.disk, Local) == Some(move.drop(Now(w.disk, Local).value))
  {
    var both, m := MoverMoves(w, pid, move);
    w' := MoveLetsGo(both, pid, m);
    GoOn(w, pid, both, w');
    Arrived(w, pid, w');
    assert w.procs[pid := Idle] == w.procs;
  }

  lemma MoverMoves(w: World, pid: Pid, move: Move) returns (w': World, m: Mover)
    requires Placed(w.disk) && pid in w.procs && w.procs[pid].Idle?
    requires forall h: Half :: IsFree(w.disk, h) && Now(w.disk, h).Some?
    ensures Placed(w'.disk) && OnTheWay(w, pid, w') && w'.procs == w.procs[pid := Publishing(m)]
    ensures m.BothMoved? && LocksHeld(w'.disk, m.held) && {Published, Local} <= m.held.Keys
    ensures Now(w'.disk, Published) == Some(move.publish(Now(w.disk, Published).value))
    ensures Now(w'.disk, Local) == Some(move.drop(Now(w.disk, Local).value))
  {
    var pub, loc := Now(w.disk, Published).value, Now(w.disk, Local).value;
    var read, locks := MoverReads(w, pid, pub, loc, Stat(0, 0));
    w' := MoverWrites(read, pid, move, locks, pub, loc, Stat(0, 0));
    m := BothMoved(move, locks, pub, loc);
    SetTwice(w.procs, pid, read.procs[pid], Publishing(m));
    GoOn(w, pid, read, w');
  }

  lemma SetTwice(procs: map<Pid, Proc>, pid: Pid, p: Proc, q: Proc)
    ensures procs[pid := p][pid := q] == procs[pid := q]
  {
  }

  lemma MoverReads(w: World, pid: Pid, pub: Content, loc: Content, stat: Stat) returns (w': World, locks: map<Half, Inode>)
    requires Placed(w.disk) && pid in w.procs && w.procs[pid].Idle? && forall h: Half :: IsFree(w.disk, h)
    requires Now(w.disk, Published) == Some(pub) && Now(w.disk, Local) == Some(loc)
    ensures Placed(w'.disk) && OnTheWay(w, pid, w') && LocksHeld(w'.disk, locks) && {Published, Local} <= locks.Keys
    ensures w'.procs ==
            w.procs[pid := Snapshotting({Published, Local}, locks, [Snapshot(Published, pub, stat), Snapshot(Local, loc, stat)])]
  {
    w', locks := BuilderReads(w, pid, {Published, Local}, stat);
    SnapsOfBoth(w.disk, stat);
  }

  lemma SnapsOfBoth(d: Disk, stat: Stat)
    requires Now(d, Published).Some? && Now(d, Local).Some?
    ensures SnapsOf(d, {Published, Local}, stat) == [Snapshot(Published, Now(d, Published).value, stat), Snapshot(Local, Now(d, Local).value, stat)]
  {
  }

  lemma MoverWrites(w: World, pid: Pid, move: Move, locks: map<Half, Inode>, pub: Content, loc: Content, stat: Stat) returns (w': World)
    requires Placed(w.disk) && pid in w.procs && {Published, Local} <= locks.Keys && LocksHeld(w.disk, locks)
    requires w.procs[pid] == Snapshotting({Published, Local}, locks, [Snapshot(Published, pub, stat), Snapshot(Local, loc, stat)])
    ensures Placed(w'.disk) && OnTheWay(w, pid, w') && LocksHeld(w'.disk, locks)
    ensures w'.procs == w.procs[pid := Publishing(BothMoved(move, locks, pub, loc))]
    ensures Now(w'.disk, Published) == Some(move.publish(pub)) && Now(w'.disk, Local) == Some(move.drop(loc))
  {
    var started := MoveStarts(w, pid, move, locks, pub, loc, stat);
    w' := MoveFinishes(started, pid, Moving(move, locks, pub, loc, Published, w.disk.next, move.publish(pub)));
    SetTwice(w.procs, pid, started.procs[pid], w'.procs[pid]);
    GoOn(w, pid, started, w');
  }

  // ---------------------------------------------------------------- and what none may do too early

  /** No table is filled before every half wanted is locked and read. */
  lemma FillsWhatItRead(w: World, pid: Pid)
    requires Enabled(true, w, StartFilling(pid))
    ensures w.procs[pid].want <= w.procs[pid].locks.Keys && w.procs[pid].want <= HalvesOf(w.procs[pid].snaps)
  {
    NoneWanted(w.procs[pid].want, w.procs[pid].locks.Keys);
    NoneWanted(w.procs[pid].want, HalvesOf(w.procs[pid].snaps));
  }

  /** Nothing is published before both halves are locked and read. */
  lemma MovesWhatItRead(w: World, steps: seq<Action>, w': World, pid: Pid, move: Move)
    requires Initial(w) && Leads(true, w, steps, w') && Enabled(true, w', StartMove(pid, move))
    ensures var p := w'.procs[pid];
            && p.locks.Keys == {Published, Local} && |p.snaps| == 2
            && p.snaps[0].half == Published && Some(p.snaps[0].content) == Now(w'.disk, Published)
            && p.snaps[1].half == Local && Some(p.snaps[1].content) == Now(w'.disk, Local)
  {
    InitialInv(w);
    RunKeepsInv(w, steps, w');
    assert ProcOk(w'.disk, pid, w'.procs[pid]);
    NoneWanted({Published, Local}, w'.procs[pid].locks.Keys);
  }

  /** No open returns before every half there is has been hashed, the published one among them. */
  lemma AcceptsWhatItHashed(w: World, pid: Pid)
    requires Enabled(true, w, Accept(pid))
    ensures w.procs[pid].current.None? && Published in w.procs[pid].hashed
    ensures forall h: Half :: h in w.procs[pid].hashed <==> IndexFile(h) in w.disk.dir
  {
    forall h: Half ensures h in Present(w.disk) <==> IndexFile(h) in w.disk.dir {
      match h
      case Published => assert SOURCES[0] == h;
      case Local => assert SOURCES[1] == h;
    }
  }
}
