/**
  * Why the lock is a sibling file. With the lock taken on the index itself, the
  * first replace leaves that lock behind on an inode no new writer will ever open,
  * and an update is lost.
  *
  * The run has two writers. Process 0 opens the index to lock it and takes the lock;
  * process 1 opens the same inode and waits. Process 0 rewrites the rows unchanged and
  * replaces the index, which now is another inode, and releases. Process 1 gets the lock
  * of the old inode and reads the index. Process 0 opens the new inode, locks that, and
  * reads too: both are inside. Process 0 adds a row and replaces; process 1 writes what
  * it read before and replaces. Three updates are in the history, the row is not in the
  * index.
  */
module LockedIndex {
  import opened DerivedDb
  import opened IndexProtocol
  import opened IndexTheorems

  const ADD: Op := c => c + [Blank]
  const KEEP: Op := c => c

  /** One published index and two writers. */
  function Two(inode: Inode, files: map<Inode, File>, sealed: set<Inode>, next: Inode, flock: map<Inode, Pid>,
               ops: seq<Op>, versions: seq<Content>, p0: Proc, p1: Proc): World
  {
    World(Disk(map[IndexFile(Published) := inode], files, sealed, next, flock,
               map[Published := ops, Local := []], map[Published := versions, Local := []]),
          map[0 := p0, 1 := p1])
  }

  const ONE: map<Inode, File> := map[0 := Rows([])]
  const TWO: map<Inode, File> := ONE[1 := Rows([])]
  const THREE: map<Inode, File> := TWO[2 := Rows([])]
  const ADDED: map<Inode, File> := TWO[2 := Rows([Blank])]
  const FOUR: map<Inode, File> := ADDED[3 := Rows([])]
  const BOTH: map<Inode, Pid> := map[0 := 1, 1 := 0]

  const LAST: nat := 17

  /** The run, world by world. */
  function At(k: nat): World
    requires k <= LAST
  {
    match k
    case 0 => Two(0, ONE, {0}, 1, map[], [], [[]], Idle, Idle)
    case 1 => Two(0, ONE, {0}, 1, map[], [], [[]], WantsLock(Published, KEEP, 0), Idle)
    case 2 => Two(0, ONE, {0}, 1, map[0 := 0], [], [[]], HasLock(Published, KEEP, 0), Idle)
    case 3 => Two(0, ONE, {0}, 1, map[0 := 0], [], [[]], HasLock(Published, KEEP, 0), WantsLock(Published, KEEP, 0))
    case 4 => Two(0, ONE, {0}, 1, map[0 := 0], [], [[]], HasRead(Published, KEEP, 0, []), WantsLock(Published, KEEP, 0))
    case 5 => Two(0, TWO, {0}, 2, map[0 := 0], [], [[]], Writing(Published, KEEP, 0, [], 1, []), WantsLock(Published, KEEP, 0))
    case 6 => Two(1, TWO, {0, 1}, 2, map[0 := 0], [KEEP], [[], []], Replaced(Published, 0), WantsLock(Published, KEEP, 0))
    case 7 => Two(1, TWO, {0, 1}, 2, map[], [KEEP], [[], []], Idle, WantsLock(Published, KEEP, 0))
    case 8 => Two(1, TWO, {0, 1}, 2, map[0 := 1], [KEEP], [[], []], Idle, HasLock(Published, KEEP, 0))
    case 9 => Two(1, TWO, {0, 1}, 2, map[0 := 1], [KEEP], [[], []], Idle, HasRead(Published, KEEP, 0, []))
    case 10 => Two(1, TWO, {0, 1}, 2, map[0 := 1], [KEEP], [[], []], WantsLock(Published, ADD, 1), HasRead(Published, KEEP, 0, []))
    case 11 => Two(1, TWO, {0, 1}, 2, BOTH, [KEEP], [[], []], HasLock(Published, ADD, 1), HasRead(Published, KEEP, 0, []))
    case 12 => Two(1, TWO, {0, 1}, 2, BOTH, [KEEP], [[], []], HasRead(Published, ADD, 1, []), HasRead(Published, KEEP, 0, []))
    case 13 => Two(1, THREE, {0, 1}, 3, BOTH, [KEEP], [[], []], Writing(Published, ADD, 1, [], 2, [Blank]), HasRead(Published, KEEP, 0, []))
    case 14 => Two(1, ADDED, {0, 1}, 3, BOTH, [KEEP], [[], []], Writing(Published, ADD, 1, [], 2, []), HasRead(Published, KEEP, 0, []))
    case 15 => Two(2, ADDED, {0, 1, 2}, 3, BOTH, [KEEP, ADD], [[], [], [Blank]], Replaced(Published, 1), HasRead(Published, KEEP, 0, []))
    case 16 => Two(2, FOUR, {0, 1, 2}, 4, BOTH, [KEEP, ADD], [[], [], [Blank]], Replaced(Published, 1), Writing(Published, KEEP, 0, [], 3, []))
    case _ => Two(3, FOUR, {0, 1, 2, 3}, 4, BOTH, [KEEP, ADD, KEEP], [[], [], [Blank], []], Replaced(Published, 1), Replaced(Published, 0))
  }

  /** The step taken in each of them. */
  function Taken(k: nat): Action
    requires k < LAST
  {
    match k
    case 0 => OpenLock(0, Published, KEEP)
    case 1 => TakeLock(0)
    case 2 => OpenLock(1, Published, KEEP)
    case 3 => ReadIndex(0)
    case 4 => MakeTemp(0)
    case 5 => Replace(0)
    case 6 => Stop(0)
    case 7 => TakeLock(1)
    case 8 => ReadIndex(1)
    case 9 => OpenLock(0, Published, ADD)
    case 10 => TakeLock(0)
    case 11 => ReadIndex(0)
    case 12 => MakeTemp(0)
    case 13 => WriteRow(0)
    case 14 => Replace(0)
    case 15 => MakeTemp(1)
    case _ => Replace(1)
  }

  ghost predicate Moves(k: nat)
    requires k < LAST
  {
    Enabled(false, At(k), Taken(k)) && Step(false, At(k), Taken(k)) == At(k + 1)
  }

  /** A writer with nothing left to write puts its file in place. */
  lemma Replacing(pid: Pid, p: Proc, inode: Inode, files: map<Inode, File>, sealed: set<Inode>, next: Inode, flock: map<Inode, Pid>,
                  ops: seq<Op>, versions: seq<Content>, p0: Proc, p1: Proc)
    returns (w': World)
    requires (pid == 0 && p == p0) || (pid == 1 && p == p1)
    requires p.Writing? && p.half == Published && p.todo == [] && p.tmp in files && files[p.tmp].Rows?
    ensures var w := Two(inode, files, sealed, next, flock, ops, versions, p0, p1);
            Enabled(false, w, Replace(pid)) && Step(false, w, Replace(pid)) == w'
    ensures var after := Replaced(Published, p.lock);
            w' == Two(p.tmp, files, sealed + {p.tmp}, next, flock, ops + [p.op], versions + [files[p.tmp].content],
                      if pid == 0 then after else p0, if pid == 1 then after else p1)
  {
    var w := Two(inode, files, sealed, next, flock, ops, versions, p0, p1);
    var after := Replaced(Published, p.lock);
    DiskWithReplaced(w.disk, inode, p);
    assert Enabled(false, w, Replace(pid));
    w' := Step(false, w, Replace(pid));
    assert w'.procs == map[0 := if pid == 0 then after else p0, 1 := if pid == 1 then after else p1];
  }

  lemma DiskWithReplaced(d: Disk, inode: Inode, p: Proc)
    requires p.Writing? && p.half == Published && p.tmp in d.files && d.files[p.tmp].Rows?
    requires d.dir == map[IndexFile(Published) := inode]
    requires d.ops.Keys == {Published, Local} && d.ops[Local] == []
    requires d.versions.Keys == {Published, Local} && d.versions[Local] == []
    ensures d.dir[IndexFile(Published) := p.tmp] == map[IndexFile(Published) := p.tmp]
    ensures d.ops[Published := d.ops[Published] + [p.op]] == map[Published := d.ops[Published] + [p.op], Local := []]
    ensures var c := d.files[p.tmp].content;
            d.versions[Published := d.versions[Published] + [c]] == map[Published := d.versions[Published] + [c], Local := []]
  {
  }

  lemma MovesTo(k: nat, w: World, w': World)
    requires k < LAST && At(k) == w && At(k + 1) == w'
    requires Enabled(false, w, Taken(k)) && Step(false, w, Taken(k)) == w'
    ensures Moves(k)
  {
  }

  lemma Move1()
    ensures Moves(1)
  {
  }

  lemma Move2()
    ensures Moves(2)
  {
  }

  lemma Move3()
    ensures Moves(3)
  {
  }

  lemma Move4()
    ensures Moves(4)
  {
    assert KEEP([]) == [];
  }

  lemma Move5()
    ensures Moves(5)
  {
    var p := Writing(Published, KEEP, 0, [], 1, []);
    var w' := Replacing(0, p, 0, TWO, {0}, 2, map[0 := 0], [], [[]], p, WantsLock(Published, KEEP, 0));
    assert [] + [KEEP] == [KEEP];
    var versions: seq<Content> := [[]];
    assert versions + [[]] == [[], []];
    MovesTo(5, At(5), w');
  }

  lemma Move6()
    ensures Moves(6)
  {
    var held := Holds(Replaced(Published, 0));
    assert held == map[Published := 0] && Published in held;
    assert held.Values == {0};
    assert map[0 := 0] - {0} == map[];
  }

  lemma Move7()
    ensures Moves(7)
  {
  }

  lemma Move8()
    ensures Moves(8)
  {
  }

  lemma Move9()
    ensures Moves(9)
  {
  }

  lemma Move10()
    ensures Moves(10)
  {
  }

  lemma Move11()
    ensures Moves(11)
  {
  }

  lemma Move12()
    ensures Moves(12)
  {
    assert ADD([]) == [Blank];
  }

  lemma Move13()
    ensures Moves(13)
  {
    assert [Blank][1..] == [] && [] + [Blank] == [Blank];
    assert THREE[2 := Rows([Blank])] == ADDED;
  }

  lemma Move14()
    ensures Moves(14)
  {
    var p := Writing(Published, ADD, 1, [], 2, []);
    var w' := Replacing(0, p, 1, ADDED, {0, 1}, 3, BOTH, [KEEP], [[], []], p, HasRead(Published, KEEP, 0, []));
    assert {0, 1} + {2} == {0, 1, 2};
    assert [KEEP] + [ADD] == [KEEP, ADD];
    var versions: seq<Content> := [[], []];
    assert versions + [[Blank]] == [[], [], [Blank]];
    MovesTo(14, At(14), w');
  }

  lemma Move15()
    ensures Moves(15)
  {
    assert KEEP([]) == [];
  }

  lemma Move16()
    ensures Moves(16)
  {
    var p := Writing(Published, KEEP, 0, [], 3, []);
    var w' := Replacing(1, p, 2, FOUR, {0, 1, 2}, 4, BOTH, [KEEP, ADD], [[], [], [Blank]], Replaced(Published, 1), p);
    assert {0, 1, 2} + {3} == {0, 1, 2, 3};
    assert [KEEP, ADD] + [KEEP] == [KEEP, ADD, KEEP];
    var versions: seq<Content> := [[], [], [Blank]];
    assert versions + [[]] == [[], [], [Blank], []];
    MovesTo(16, At(16), w');
  }

  lemma EveryMove(k: nat)
    requires k < LAST
    ensures Moves(k)
  {
    match k {
      case 0 => 
      case 1 => Move1();
      case 2 => Move2();
      case 3 => Move3();
      case 4 => Move4();
      case 5 => Move5();
      case 6 => Move6();
      case 7 => Move7();
      case 8 => Move8();
      case 9 => Move9();
      case 10 => Move10();
      case 11 => Move11();
      case 12 => Move12();
      case 13 => Move13();
      case 14 => Move14();
      case 15 => Move15();
      case _ => Move16();
    }
  }

  ghost function TakenFrom(k: nat): seq<Action>
    requires k <= LAST
    decreases LAST - k
  {
    if k == LAST then [] else [Taken(k)] + TakenFrom(k + 1)
  }

  lemma {:induction false} RunFrom(k: nat)
    requires k <= LAST
    ensures Leads(false, At(k), TakenFrom(k), At(LAST))
    decreases LAST - k
  {
    if k < LAST {
      EveryMove(k);
      RunFrom(k + 1);
      assert TakenFrom(k)[1..] == TakenFrom(k + 1);
    }
  }

  lemma StartIsInitial()
    ensures Initial(At(0)) && HasIndex(At(0).disk, Published) && IndexContent(At(0).disk, Published) == []
  {
    var d := At(0).disk;
    forall h: Half
      ensures HasIndex(d, h) <==> IndexFile(h) in d.dir
      ensures h in d.versions && h in d.ops && d.ops[h] == []
      ensures d.versions[h] == if HasIndex(d, h) then [IndexContent(d, h)] else []
    {
      match h
      case Published =>
      case Local =>
    }
  }

  lemma EndHoldsNoRow()
    ensures var d := At(LAST).disk;
            && HasIndex(d, Published) && IndexContent(d, Published) == []
            && Published in d.ops && d.ops[Published] == [KEEP, ADD, KEEP]
  {
  }

  lemma AppliedInTurn()
    ensures ApplyAll([KEEP, ADD, KEEP], []) == [Blank]
  {
    var ops := [KEEP, ADD, KEEP];
    assert ops[..2] == [KEEP, ADD] && [KEEP, ADD][..1] == [KEEP] && [KEEP][..0] == [];
    assert ApplyAll([KEEP], []) == KEEP(ApplyAll([], [])) == [];
    assert ApplyAll([KEEP, ADD], []) == ADD([]) == [Blank];
  }

  /**
    * A writer adds a row while another, whose lock is on the replaced inode, rewrites
    * what it read before: all three updates are in the history and the row is gone.
    */
  lemma LockingTheIndexLosesAnUpdate() returns (w: World, steps: seq<Action>, w': World)
    ensures Initial(w) && Leads(false, w, steps, w')
    ensures HasIndex(w.disk, Published) && HasIndex(w'.disk, Published) && Published in w'.disk.ops
    ensures IndexContent(w'.disk, Published) != ApplyAll(w'.disk.ops[Published], IndexContent(w.disk, Published))
  {
    w, steps, w' := At(0), TakenFrom(0), At(LAST);
    RunFrom(0);
    Differs(w, w');
  }

  lemma Differs(w: World, w': World)
    requires w == At(0) && w' == At(LAST)
    ensures Initial(w)
    ensures HasIndex(w.disk, Published) && HasIndex(w'.disk, Published) && Published in w'.disk.ops
    ensures IndexContent(w'.disk, Published) != ApplyAll(w'.disk.ops[Published], IndexContent(w.disk, Published))
  {
    StartIsInitial();
    EndHoldsNoRow();
    AppliedInTurn();
  }
}
