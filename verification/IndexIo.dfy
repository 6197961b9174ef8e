/**
  * The two operations of the index writer as it runs them: the atomic write, row by row
  * into a sibling and then renamed, and the lock taken in a retry loop. The write is tied
  * to the steps of the protocol it consists of.
  */
module IndexIo {
  import opened Prelude
  import opened DerivedDb
  import opened IndexProtocol

  // ---------------------------------------------------------------- the atomic write

  /** A directory of row files; an inode keeps its rows for as long as anyone has it open. */
  class RowFiles {
    var dir: map<Path, Inode>
    var rows: map<Inode, Content>
    var next: Inode

    ghost predicate Valid()
      reads this
    {
      (forall i :: i in rows ==> i < next) && forall p :: p in dir ==> dir[p] in rows
    }

    constructor ()
      ensures Valid() && dir == map[] && rows == map[]
    {
      dir, rows, next := map[], map[], 0;
    }

    /** Writing may fail before any row, or after the last; the temp file is then removed and nothing else has changed. */
    method WriteAtomic(path: Path, content: Content, failsAt: Option<nat>) returns (ok: bool)
      requires Valid()
      modifies this
      ensures Valid()
      ensures ok <==> failsAt.None? || failsAt.value > |content|
      ensures forall i :: i in old(rows) ==> i in rows && rows[i] == old(rows)[i]
      ensures ok ==> old(next) in rows && rows[old(next)] == content && dir == old(dir)[path := old(next)]
      ensures !ok ==> dir == old(dir) && rows == old(rows)
    {
      var tmp := next;
      rows, next := rows[tmp := []], next + 1;
      for k := 0 to |content|
        invariant dir == old(dir) && next == old(next) + 1 && tmp in rows && rows[tmp] == content[..k]
        invariant failsAt.Some? ==> k <= failsAt.value
        invariant rows.Keys == old(rows).Keys + {tmp} && forall i :: i in old(rows) ==> rows[i] == old(rows)[i]
      {
        if failsAt == Some(k) {
          rows := rows - {tmp};
          return false;
        }
        rows := rows[tmp := rows[tmp] + [content[k]]];
      }
      if failsAt == Some(|content|) {
        rows := rows - {tmp};
        return false;
      }
      dir := dir[path := tmp];
      return true;
    }
  }

  // ---------------------------------------------------------------- the write as protocol steps

  function WriteSteps(pid: Pid, n: nat): seq<Action> {
    if n == 0 then [Replace(pid)] else [WriteRow(pid)] + WriteSteps(pid, n - 1)
  }

  /** Writing the rows still to do and replacing: the index is the rows written before and these. */
  lemma {:induction false} WriteStepsReplace(w: World, pid: Pid) returns (w': World)
    requires pid in w.procs && w.procs[pid].Writing?
    requires var p := w.procs[pid];
             && p.half in w.disk.versions && p.half in w.disk.ops && p.tmp in w.disk.files && w.disk.files[p.tmp].Rows?
    ensures Leads(true, w, WriteSteps(pid, |w.procs[pid].todo|), w')
    ensures var p := w.procs[pid];
            && HasIndex(w'.disk, p.half) && w'.disk.dir == w.disk.dir[IndexFile(p.half) := p.tmp]
            && IndexContent(w'.disk, p.half) == w.disk.files[p.tmp].content + p.todo
            && (forall i :: i in w.disk.files && i != p.tmp ==> i in w'.disk.files && w'.disk.files[i] == w.disk.files[i])
            && w'.disk.ops == w.disk.ops[p.half := w.disk.ops[p.half] + [p.op]]
    decreases |w.procs[pid].todo|
  {
    var p := w.procs[pid];
    if p.todo == [] {
      w' := Step(true, w, Replace(pid));
      assert WriteSteps(pid, 0)[1..] == [];
      assert w.disk.files[p.tmp].content + [] == w.disk.files[p.tmp].content;
    } else {
      var a := WriteRow(pid);
      var mid := Step(true, w, a);
      w' := WriteStepsReplace(mid, pid);
      ConcatAssociates(w.disk.files[p.tmp].content, [p.todo[0]], p.todo[1..]);
      assert [p.todo[0]] + p.todo[1..] == p.todo;
      assert WriteSteps(pid, |p.todo|)[1..] == WriteSteps(pid, |p.todo| - 1);
    }
  }

  /** From the re-read on, a writer that is not stopped installs its transformation of what it re-read. */
  lemma WriterInstallsItsRows(w: World, pid: Pid) returns (steps: seq<Action>, w': World)
    requires pid in w.procs && w.procs[pid].HasRead?
    requires w.procs[pid].half in w.disk.versions && w.procs[pid].half in w.disk.ops && w.disk.next !in w.disk.files
    ensures Leads(true, w, steps, w') && |steps| == |w.procs[pid].op(w.procs[pid].snapshot)| + 2
    ensures var p := w.procs[pid];
            && HasIndex(w'.disk, p.half) && IndexContent(w'.disk, p.half) == p.op(p.snapshot)
            && forall i :: i in w.disk.files ==> i in w'.disk.files && w'.disk.files[i] == w.disk.files[i]
  {
    var p := w.procs[pid];
    var mid := Step(true, w, MakeTemp(pid));
    var rows := p.op(p.snapshot);
    w' := WriteStepsReplace(mid, pid);
    assert [] + rows == rows;
    steps := [MakeTemp(pid)] + WriteSteps(pid, |rows|);
    assert steps[1..] == WriteSteps(pid, |rows|);
    WriteStepsLength(pid, |rows|);
  }

  lemma {:induction false} WriteStepsLength(pid: Pid, n: nat)
    ensures |WriteSteps(pid, n)| == n + 1
  {
    if n > 0 {
      WriteStepsLength(pid, n - 1);
    }
  }

  // ---------------------------------------------------------------- the lock

  /**
    * The retry loop: `free(i)` says whether attempt `i` gets the lock and `clock(i)` when
    * it is made. It gets the lock at the first attempt that can have it, unless the
    * deadline has passed at an attempt before; it says once that it is waiting.
    */
  method AcquireLock(free: nat -> bool, clock: nat -> nat, timeout: nat, quiet: bool)
    returns (taken: bool, last: nat, announced: nat)
    requires forall i: nat :: clock(i) < clock(i + 1)
    ensures forall i: nat :: i < last ==> !free(i) && clock(i) < clock(0) + timeout
    ensures taken <==> free(last)
    ensures !taken ==> clock(last) >= clock(0) + timeout
    ensures announced == if quiet || last == 0 then 0 else 1
  {
    var deadline := clock(0) + timeout;
    last, announced := 0, 0;
    while true
      invariant forall i: nat :: i < last ==> !free(i) && clock(i) < clock(0) + timeout
      invariant announced == if quiet || last == 0 then 0 else 1
      invariant clock(last) >= clock(0) + last
      decreases deadline + 1 - last
    {
      if free(last) {
        return true, last, announced;
      }
      if clock(last) >= deadline {
        return false, last, announced;
      }
      if announced == 0 && !quiet {
        announced := 1;
      }
      last := last + 1;
    }
  }
}
