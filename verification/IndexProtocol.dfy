/**
  * Writers, plain readers, builders and `open_ro` over one file system, one step of
  * one process at a time: lock, re-read, write a sibling temp file, replace it into
  * place, release. A lock is held on an inode, a path names an inode, and replacing
  * a path leaves the inode it named before to whoever still has it open.
  */
module IndexProtocol {
  import opened Prelude
  import opened DerivedDb

  type Pid = nat
  type Inode = nat

  /** A writer's read-modify-write: the new rows as a function of those it re-read. */
  type Op = Content -> Content

  datatype Path = IndexFile(half: Half) | LockFile(half: Half) | DbFile

  /** `from` records which snapshots a database is being filled from. */
  datatype File = Rows(content: Content) | Database(db: Db, from: seq<Snapshot>) | LockText

  /**
    * `versions[h]` are the contents the half has had, oldest first, and `ops[h]` the
    * transformations that led from each to the next. `sealed` are the inodes that
    * have ever been in place under an index or database path.
    */
  datatype Disk = Disk(dir: map<Path, Inode>, files: map<Inode, File>, sealed: set<Inode>, next: Inode,
                       flock: map<Inode, Pid>, ops: map<Half, seq<Op>>, versions: map<Half, seq<Content>>)

  /** Publishing rows: what both halves become, under both locks, the published half first. */
  datatype Move = Move(publish: Op, drop: Op)

  /** `pub` and `loc` are what was re-read; `half` is being written, or the published half is done, or both are. */
  datatype Mover =
    | Moving(move: Move, held: map<Half, Inode>, pub: Content, loc: Content, half: Half, tmp: Inode, left: Content)
    | HalfMoved(move: Move, held: map<Half, Inode>, pub: Content, loc: Content)
    | BothMoved(move: Move, held: map<Half, Inode>, pub: Content, loc: Content)
  {
    function Op(): Op
      requires Moving?
    {
      if half == Published then move.publish else move.drop
    }

    function From(): Content
      requires Moving?
    {
      if half == Published then pub else loc
    }
  }

  datatype Source = Source(half: Half, file: Inode)

  datatype Proc =
    | Idle
    | WantsLock(half: Half, op: Op, lock: Inode)
    | HasLock(half: Half, op: Op, lock: Inode)
    | HasRead(half: Half, op: Op, lock: Inode, snapshot: Content)
    | Writing(half: Half, op: Op, lock: Inode, snapshot: Content, tmp: Inode, todo: Content)
    | Replaced(half: Half, lock: Inode)
    | Publishing(mover: Mover)
    | Reading(half: Half, file: Inode, got: Content, since: nat)
    | DoneReading(half: Half, got: Content, since: nat)
    | Snapshotting(want: set<Half>, locks: map<Half, Inode>, snaps: seq<Snapshot>)
    | Building(snaps: seq<Snapshot>, tmp: Inode, filled: nat)
    | Opening(file: Inode, hashed: map<Half, Content>, current: Option<Source>, began: map<Half, nat>)
    | Opened(file: Inode, hashed: map<Half, Content>, began: map<Half, nat>)

  datatype World = World(disk: Disk, procs: map<Pid, Proc>)

  // ---------------------------------------------------------------- vocabulary

  /** `index_lock` locks a sibling file. With `sibling` false the index itself would be locked. */
  function LockPath(sibling: bool, h: Half): Path {
    if sibling then LockFile(h) else IndexFile(h)
  }

  function Holds(p: Proc): map<Half, Inode> {
    match p
    case HasLock(h, _, l) => map[h := l]
    case HasRead(h, _, l, _) => map[h := l]
    case Writing(h, _, l, _, _, _) => map[h := l]
    case Replaced(h, l) => map[h := l]
    case Snapshotting(_, locks, _) => locks
    case Publishing(m) => m.held
    case _ => map[]
  }

  function Temp(p: Proc): Option<Inode> {
    match p
    case Writing(_, _, _, _, tmp, _) => Some(tmp)
    case Building(_, tmp, _) => Some(tmp)
    case Publishing(m) => if m.Moving? then Some(m.tmp) else None
    case _ => None
  }

  /** The first wanted half, in source order, that is not done yet. */
  function NextWanted(want: set<Half>, done: set<Half>): Option<Half> {
    if Published in want && Published !in done then Some(Published)
    else if Local in want && Local !in done then Some(Local)
    else None
  }

  function HalvesOf(snaps: seq<Snapshot>): set<Half> {
    set i | 0 <= i < |snaps| :: snaps[i].half
  }

  predicate HasIndex(d: Disk, h: Half) {
    IndexFile(h) in d.dir && d.dir[IndexFile(h)] in d.files && d.files[d.dir[IndexFile(h)]].Rows?
  }

  function IndexContent(d: Disk, h: Half): Content
    requires HasIndex(d, h)
  {
    d.files[d.dir[IndexFile(h)]].content
  }

  function Present(d: Disk): set<Half> {
    set h | h in SOURCES && IndexFile(h) in d.dir
  }

  function VersionCounts(d: Disk): map<Half, nat> {
    map h | h in d.versions :: |d.versions[h]|
  }

  // ---------------------------------------------------------------- steps

  datatype Action =
    | OpenLock(pid: Pid, half: Half, op: Op)
    | TakeLock(pid: Pid)
    | ReadIndex(pid: Pid)
    | MakeTemp(pid: Pid)
    | WriteRow(pid: Pid)
    | Replace(pid: Pid)
    | Stop(pid: Pid)
    | StartMove(pid: Pid, move: Move)
    | MoveOn(pid: Pid)
    | StartRead(pid: Pid, half: Half)
    | ReadRow(pid: Pid)
    | FinishRead(pid: Pid)
    | StartBuild(pid: Pid, want: set<Half>)
    | TakeBuildLock(pid: Pid)
    | TakeSnapshot(pid: Pid, stat: Stat)
    | StartFilling(pid: Pid)
    | FillSource(pid: Pid)
    | ReplaceDb(pid: Pid)
    | StartOpen(pid: Pid)
    | OpenSource(pid: Pid, half: Half)
    | HashSource(pid: Pid)
    | Accept(pid: Pid)

  /** The inode a lock is taken on: the file is created by the first to open it. */
  function LockInode(sibling: bool, d: Disk, h: Half): Inode {
    var path := LockPath(sibling, h);
    if path in d.dir then d.dir[path] else d.next
  }

  function WithLockFile(sibling: bool, d: Disk, h: Half): Disk {
    var path := LockPath(sibling, h);
    if path in d.dir then d
    else d.(dir := d.dir[path := d.next], files := d.files[d.next := LockText], next := d.next + 1)
  }

  /** A temp file renamed over an index: one more content of that half. */
  ghost function InPlace(d: Disk, h: Half, op: Op, tmp: Inode): Disk
    requires h in d.versions && h in d.ops && tmp in d.files && d.files[tmp].Rows?
  {
    d.(dir := d.dir[IndexFile(h) := tmp], sealed := d.sealed + {tmp},
       ops := d.ops[h := d.ops[h] + [op]], versions := d.versions[h := d.versions[h] + [d.files[tmp].content]])
  }

  function WithNewTemp(d: Disk): Disk {
    d.(files := d.files[d.next := Rows([])], next := d.next + 1)
  }

  function WithRow(d: Disk, tmp: Inode, r: Line): Disk
    requires tmp in d.files && d.files[tmp].Rows?
  {
    d.(files := d.files[tmp := Rows(d.files[tmp].content + [r])])
  }

  ghost function WithSource(d: Disk, tmp: Inode, s: Snapshot, from: seq<Snapshot>): Disk
    requires tmp in d.files && d.files[tmp].Database?
  {
    d.(files := d.files[tmp := Database(AddSource(d.files[tmp].db, s), from)])
  }

  // What a process that publishes rows does next: a row into the temp file, the replace, or the second temp file.

  ghost predicate CanMoveOn(d: Disk, m: Mover) {
    match m
    case Moving(_, _, _, _, half, tmp, left) => tmp in d.files && d.files[tmp].Rows? && half in d.versions && half in d.ops
    case HalfMoved(_, _, _, _) => true
    case BothMoved(_, _, _, _) => false
  }

  ghost function DiskMovedOn(d: Disk, m: Mover): Disk
    requires CanMoveOn(d, m)
  {
    match m
    case Moving(_, _, _, _, half, tmp, left) => if left != [] then WithRow(d, tmp, left[0]) else InPlace(d, half, m.Op(), tmp)
    case HalfMoved(_, _, _, _) => WithNewTemp(d)
  }

  ghost function MovedOn(d: Disk, m: Mover): Mover
    requires CanMoveOn(d, m)
  {
    match m
    case Moving(move, held, pub, loc, half, _, left) =>
      if left != [] then m.(left := left[1..])
      else if half == Published then HalfMoved(move, held, pub, loc)
      else BothMoved(move, held, pub, loc)
    case HalfMoved(move, held, pub, loc) => Moving(move, held, pub, loc, Local, d.next, move.drop(loc))
  }

  ghost predicate Enabled(sibling: bool, w: World, a: Action) {
    && a.pid in w.procs
    && var d, p := w.disk, w.procs[a.pid];
    match a
    case OpenLock(_, _, _) => p.Idle?
    case TakeLock(_) => p.WantsLock? && p.lock !in d.flock
    case ReadIndex(_) => p.HasLock? && HasIndex(d, p.half)
    case MakeTemp(_) => p.HasRead?
    case WriteRow(_) => p.Writing? && p.todo != [] && p.tmp in d.files && d.files[p.tmp].Rows?
    case Replace(_) => p.Writing? && p.todo == [] && p.half in d.versions && p.half in d.ops
                       && p.tmp in d.files && d.files[p.tmp].Rows?
    case StartMove(_, _) => p.Snapshotting? && p.want == {Published, Local} && NextWanted(p.want, p.locks.Keys).None?
                            && NextWanted(p.want, HalvesOf(p.snaps)).None? && |p.snaps| == 2
    case MoveOn(_) => p.Publishing? && CanMoveOn(d, p.mover)
    case Stop(_) => true
    case StartRead(_, h) => p.Idle? && HasIndex(d, h) && h in d.versions
    case ReadRow(_) => p.Reading? && p.file in d.files && d.files[p.file].Rows? && |p.got| < |d.files[p.file].content|
    case FinishRead(_) => p.Reading? && p.file in d.files && d.files[p.file].Rows? && |p.got| >= |d.files[p.file].content|
    case StartBuild(_, _) => p.Idle?
    case TakeBuildLock(_) => p.Snapshotting? && p.snaps == [] && NextWanted(p.want, p.locks.Keys).Some?
                             && LockInode(sibling, d, NextWanted(p.want, p.locks.Keys).value) !in d.flock
    case TakeSnapshot(_, _) => p.Snapshotting? && NextWanted(p.want, p.locks.Keys).None?
                               && NextWanted(p.want, HalvesOf(p.snaps)).Some?
                               && HasIndex(d, NextWanted(p.want, HalvesOf(p.snaps)).value)
    case StartFilling(_) => p.Snapshotting? && NextWanted(p.want, p.locks.Keys).None?
                            && NextWanted(p.want, HalvesOf(p.snaps)).None?
    case FillSource(_) => p.Building? && p.filled < |p.snaps| && p.tmp in d.files && d.files[p.tmp].Database?
    case ReplaceDb(_) => p.Building? && p.filled == |p.snaps| && p.tmp in d.files && d.files[p.tmp].Database?
    case StartOpen(_) => p.Idle? && DbFile in d.dir
    case OpenSource(_, h) => p.Opening? && p.current.None? && h !in p.hashed && HasIndex(d, h)
    case HashSource(_) => p.Opening? && p.current.Some? && p.current.value.file in d.files && d.files[p.current.value.file].Rows?
    case Accept(_) => p.Opening? && p.current.None? && p.hashed.Keys == Present(d) && Published in Present(d)
                      && p.file in d.files && d.files[p.file].Database? && Fresh(d.files[p.file].db, p.hashed)
  }

  /** What the step does to the file system. */
  ghost function DiskAfter(sibling: bool, w: World, a: Action): Disk
    requires Enabled(sibling, w, a)
  {
    var d, p := w.disk, w.procs[a.pid];
    match a
    case OpenLock(_, h, _) => WithLockFile(sibling, d, h)
    case TakeLock(pid) => d.(flock := d.flock[p.lock := pid])
    case MakeTemp(_) => WithNewTemp(d)
    case WriteRow(_) => WithRow(d, p.tmp, p.todo[0])
    case Replace(_) => InPlace(d, p.half, p.op, p.tmp)
    case StartMove(_, _) => WithNewTemp(d)
    case MoveOn(_) => DiskMovedOn(d, p.mover)
    case Stop(_) => d.(flock := d.flock - Holds(p).Values)
    case TakeBuildLock(pid) =>
      var h := NextWanted(p.want, p.locks.Keys).value;
      var d' := WithLockFile(sibling, d, h);
      d'.(flock := d'.flock[LockInode(sibling, d, h) := pid])
    case StartFilling(_) =>
      d.(flock := d.flock - Holds(p).Values, files := d.files[d.next := Database(EMPTY, p.snaps)], next := d.next + 1)
    case FillSource(_) => WithSource(d, p.tmp, p.snaps[p.filled], p.snaps)
    case ReplaceDb(_) =>
      d.(files := d.files[p.tmp := Database(Complete(d.files[p.tmp].db), p.snaps)],
         dir := d.dir[DbFile := p.tmp], sealed := d.sealed + {p.tmp})
    case _ => d
  }

  /** What the step leaves the process doing. `Stop` covers release, giving up, failing and being killed. */
  ghost function ProcAfter(sibling: bool, w: World, a: Action): Proc
    requires Enabled(sibling, w, a)
  {
    var d, p := w.disk, w.procs[a.pid];
    match a
    case OpenLock(_, h, op) => WantsLock(h, op, LockInode(sibling, d, h))
    case TakeLock(_) => HasLock(p.half, p.op, p.lock)
    case ReadIndex(_) => HasRead(p.half, p.op, p.lock, IndexContent(d, p.half))
    case MakeTemp(_) => Writing(p.half, p.op, p.lock, p.snapshot, d.next, p.op(p.snapshot))
    case WriteRow(_) => p.(todo := p.todo[1..])
    case Replace(_) => Replaced(p.half, p.lock)
    case StartMove(_, move) =>
      var pub := p.snaps[0].content;
      Publishing(Moving(move, p.locks, pub, p.snaps[1].content, Published, d.next, move.publish(pub)))
    case MoveOn(_) => Publishing(MovedOn(d, p.mover))
    case Stop(_) => Idle
    case StartRead(_, h) => Reading(h, d.dir[IndexFile(h)], [], |d.versions[h]|)
    case ReadRow(_) => Reading(p.half, p.file, p.got + [d.files[p.file].content[|p.got|]], p.since)
    case FinishRead(_) => DoneReading(p.half, p.got, p.since)
    case StartBuild(_, want) => Snapshotting(want, map[], [])
    case TakeBuildLock(_) =>
      var h := NextWanted(p.want, p.locks.Keys).value;
      p.(locks := p.locks[h := LockInode(sibling, d, h)])
    case TakeSnapshot(_, stat) =>
      var h := NextWanted(p.want, HalvesOf(p.snaps)).value;
      Snapshotting(p.want, p.locks, p.snaps + [Snapshot(h, IndexContent(d, h), stat)])
    case StartFilling(_) => Building(p.snaps, d.next, 0)
    case FillSource(_) => p.(filled := p.filled + 1)
    case ReplaceDb(_) => Idle
    case StartOpen(_) => Opening(d.dir[DbFile], map[], None, VersionCounts(d))
    case OpenSource(_, h) => p.(current := Some(Source(h, d.dir[IndexFile(h)])))
    case HashSource(_) =>
      p.(hashed := p.hashed[p.current.value.half := d.files[p.current.value.file].content], current := None)
    case Accept(_) => Opened(p.file, p.hashed, p.began)
  }

  ghost function Step(sibling: bool, w: World, a: Action): World
    requires Enabled(sibling, w, a)
  {
    World(DiskAfter(sibling, w, a), w.procs[a.pid := ProcAfter(sibling, w, a)])
  }

  /** The steps, in any interleaving, lead from one world to another. */
  ghost predicate Leads(sibling: bool, w: World, steps: seq<Action>, w': World)
    decreases |steps|
  {
    if steps == [] then w' == w
    else Enabled(sibling, w, steps[0]) && Leads(sibling, Step(sibling, w, steps[0]), steps[1..], w')
  }

  /** Any index contents, no locks, no database, nobody running. */
  ghost predicate Initial(w: World) {
    var d := w.disk;
    && d.dir.Keys <= {IndexFile(Published), IndexFile(Local)}
    && (forall h: Half :: HasIndex(d, h) <==> IndexFile(h) in d.dir)
    && (forall p, q :: p in d.dir && q in d.dir && p != q ==> d.dir[p] != d.dir[q])
    && (forall p :: p in d.dir ==> d.dir[p] < d.next && d.dir[p] in d.sealed)
    && d.sealed == d.dir.Values
    && d.flock == map[]
    && (forall h: Half :: h in d.versions && h in d.ops && d.ops[h] == []
          && d.versions[h] == if HasIndex(d, h) then [IndexContent(d, h)] else [])
    && (forall pid :: pid in w.procs ==> w.procs[pid].Idle?)
  }
}
