/**
  * Which keys each module writes and reads outside its control suites, and how a field
  * of the index is classified from that.
  */
module FieldCensus {
  import opened ControlOnly

  // ---------------------------------------------------------------- one module

  predicate EntersControl(node: Ast) {
    node.def.Some? && IsControl(node.def.value)
  }

  /** The keys written under `node`, outside control suites; `inside` when it is in one already. */
  function Puts(node: Ast, inside: bool): set<string> {
    var within := inside || EntersControl(node);
    (if within then {} else node.puts) + PutsAll(node.kids, within)
  }

  function PutsAll(nodes: seq<Ast>, inside: bool): set<string> {
    if nodes == [] then {} else Puts(nodes[0], inside) + PutsAll(nodes[1..], inside)
  }

  function Gets(node: Ast): set<string> {
    node.gets + GetsAll(node.kids)
  }

  function GetsAll(nodes: seq<Ast>): set<string> {
    if nodes == [] then {} else Gets(nodes[0]) + GetsAll(nodes[1..])
  }

  /** Statement `i` is the definition of one of the functions `only`. */
  predicate Excluded(body: seq<Ast>, only: set<string>, i: nat)
    requires i < |body|
  {
    Defines(body, i) && body[i].def.value in only
  }

  function PutsFrom(body: seq<Ast>, only: set<string>, i: nat): set<string>
    requires i <= |body|
    decreases |body| - i
  {
    if i == |body| then {} else Puts(body[i], Excluded(body, only, i)) + PutsFrom(body, only, i + 1)
  }

  ghost function ControlOnlySet(body: seq<Ast>, elsewhere: set<string>): set<string> {
    set n | n in Names(body) && IsControlOnly(body, elsewhere, n)
  }

  ghost function Written(body: seq<Ast>, elsewhere: set<string>): set<string> {
    PutsFrom(body, ControlOnlySet(body, elsewhere), 0)
  }

  // ---------------------------------------------------------------- walking the tree

  /** Nodes still to visit, each with whether it lies inside a control. */
  datatype Visit = Visit(node: Ast, inside: bool)

  function QueuePuts(queue: seq<Visit>): set<string> {
    if queue == [] then {} else Puts(queue[0].node, queue[0].inside) + QueuePuts(queue[1..])
  }

  function QueueGets(queue: seq<Visit>): set<string> {
    if queue == [] then {} else Gets(queue[0].node) + QueueGets(queue[1..])
  }

  function Size(node: Ast): nat {
    1 + SizeAll(node.kids)
  }

  function SizeAll(nodes: seq<Ast>): nat {
    if nodes == [] then 0 else Size(nodes[0]) + SizeAll(nodes[1..])
  }

  function QueueSize(queue: seq<Visit>): nat {
    if queue == [] then 0 else Size(queue[0].node) + QueueSize(queue[1..])
  }

  function Visits(nodes: seq<Ast>, inside: bool): (r: seq<Visit>)
    ensures |r| == |nodes| && forall i :: 0 <= i < |r| ==> r[i] == Visit(nodes[i], inside)
  {
    seq(|nodes|, i requires 0 <= i < |nodes| => Visit(nodes[i], inside))
  }

  lemma {:induction false} QueueConcat(a: seq<Visit>, b: seq<Visit>)
    ensures QueuePuts(a + b) == QueuePuts(a) + QueuePuts(b)
    ensures QueueGets(a + b) == QueueGets(a) + QueueGets(b)
    ensures QueueSize(a + b) == QueueSize(a) + QueueSize(b)
  {
    if a == [] {
      assert a + b == b;
    } else {
      QueueConcat(a[1..], b);
      assert (a + b)[1..] == a[1..] + b;
    }
  }

  lemma {:induction false} QueueOfKids(nodes: seq<Ast>, inside: bool)
    ensures QueuePuts(Visits(nodes, inside)) == PutsAll(nodes, inside)
    ensures QueueGets(Visits(nodes, inside)) == GetsAll(nodes)
    ensures QueueSize(Visits(nodes, inside)) == SizeAll(nodes)
  {
    if nodes != [] {
      QueueOfKids(nodes[1..], inside);
      assert Visits(nodes, inside)[1..] == Visits(nodes[1..], inside);
    }
  }

  function Statements(body: seq<Ast>, only: set<string>, i: nat): (r: seq<Visit>)
    requires i <= |body|
    decreases |body| - i
  {
    if i == |body| then [] else [Visit(body[i], Excluded(body, only, i))] + Statements(body, only, i + 1)
  }

  lemma {:induction false} QueueOfStatements(body: seq<Ast>, only: set<string>, i: nat)
    requires i <= |body|
    ensures QueuePuts(Statements(body, only, i)) == PutsFrom(body, only, i)
    ensures QueueGets(Statements(body, only, i)) == GetsAll(body[i..])
    decreases |body| - i
  {
    if i < |body| {
      QueueOfStatements(body, only, i + 1);
      assert body[i..][0] == body[i] && body[i..][1..] == body[i + 1..];
    }
  }

  /** Breadth first over the whole tree, collecting the keys written and read. */
  method KeyPositions(body: seq<Ast>, elsewhere: set<string>) returns (written: set<string>, read: set<string>)
    ensures written == Written(body, elsewhere) && read == GetsAll(body)
  {
    var roots, only := FindControlOnly(body, elsewhere);
    assert only == ControlOnlySet(body, elsewhere);
    var queue := Statements(body, only, 0);
    QueueOfStatements(body, only, 0);
    assert body[0..] == body;
    written, read := {}, {};
    while queue != []
      invariant written + QueuePuts(queue) == Written(body, elsewhere)
      invariant read + QueueGets(queue) == GetsAll(body)
      decreases QueueSize(queue)
    {
      var node, inside := queue[0].node, queue[0].inside || EntersControl(queue[0].node);
      if !inside {
        written := written + node.puts;
      }
      read := read + node.gets;
      var kids := Visits(node.kids, inside);
      QueueOfKids(node.kids, inside);
      QueueConcat(queue[1..], kids);
      queue := queue[1..] + kids;
    }
  }

  // ---------------------------------------------------------------- sparing more writes more

  lemma {:induction false} PutsOutsideAreMore(node: Ast)
    ensures Puts(node, true) <= Puts(node, false)
    decreases node, 1
  {
    PutsAllOutsideAreMore(node.kids);
  }

  lemma {:induction false} PutsAllOutsideAreMore(nodes: seq<Ast>)
    ensures PutsAll(nodes, true) <= PutsAll(nodes, false)
    decreases nodes, 0
  {
    if nodes != [] {
      PutsOutsideAreMore(nodes[0]);
      PutsAllOutsideAreMore(nodes[1..]);
    }
  }

  lemma {:induction false} FewerExcludedWriteMore(body: seq<Ast>, only: set<string>, fewer: set<string>, i: nat)
    requires fewer <= only && i <= |body|
    ensures PutsFrom(body, only, i) <= PutsFrom(body, fewer, i)
    decreases |body| - i
  {
    if i < |body| {
      PutsOutsideAreMore(body[i]);
      FewerExcludedWriteMore(body, only, fewer, i + 1);
    }
  }

  /** Naming more elsewhere can only add to what a module is taken to write. */
  lemma NamingMoreWritesMore(body: seq<Ast>, elsewhere: set<string>, more: set<string>)
    requires elsewhere <= more
    ensures Written(body, elsewhere) <= Written(body, more)
  {
    forall n | n in ControlOnlySet(body, more) ensures n in ControlOnlySet(body, elsewhere) {
      NamingMoreSpares(body, elsewhere, more, n);
    }
    FewerExcludedWriteMore(body, ControlOnlySet(body, elsewhere), ControlOnlySet(body, more), 0);
  }

  // ---------------------------------------------------------------- every module

  /** A source file: its syntax, the names its imports bring in, and the fields its declared tables name. */
  datatype Module = Module(file: string, body: seq<Ast>, imported: set<string>, tables: set<string>)

  function Named(node: Ast): set<string> {
    node.mentions + NamedAll(node.kids)
  }

  function NamedAll(nodes: seq<Ast>): set<string> {
    if nodes == [] then {} else Named(nodes[0]) + NamedAll(nodes[1..])
  }

  function NamedBy(m: Module): set<string> {
    NamedAll(m.body) + m.imported
  }

  function Elsewhere(mods: seq<Module>, i: nat): set<string> {
    set j, n | 0 <= j < |mods| && j != i && n in NamedBy(mods[j]) :: n
  }

  ghost predicate WritesField(mods: seq<Module>, i: nat, leaf: string)
    requires i < |mods|
  {
    leaf in Written(mods[i].body, Elsewhere(mods, i))
  }

  predicate ReadsField(m: Module, leaf: string) {
    leaf in GetsAll(m.body) || leaf in m.tables
  }

  datatype State = Orphan | ReadOnly | WrittenBy

  /** What was written still is, and what was not an orphan does not become one. */
  predicate NotTowardsOrphan(s: State, t: State) {
    (s == WrittenBy ==> t == WrittenBy) && (s != Orphan ==> t != Orphan)
  }

  ghost function StateOf(mods: seq<Module>, leaf: string): State {
    if exists i :: 0 <= i < |mods| && WritesField(mods, i, leaf) then WrittenBy
    else if exists i :: 0 <= i < |mods| && ReadsField(mods[i], leaf) then ReadOnly
    else Orphan
  }

  method ScanModules(mods: seq<Module>) returns (writes: map<string, set<string>>, readers: map<string, set<string>>)
    requires forall i, j :: 0 <= i < j < |mods| ==> mods[i].file != mods[j].file
    ensures forall leaf, i :: 0 <= i < |mods| ==> (leaf in writes && mods[i].file in writes[leaf] <==> WritesField(mods, i, leaf))
    ensures forall leaf, i :: 0 <= i < |mods| ==> (leaf in readers && mods[i].file in readers[leaf] <==> ReadsField(mods[i], leaf))
    ensures forall leaf, f :: leaf in writes && f in writes[leaf] ==> exists i :: 0 <= i < |mods| && mods[i].file == f
    ensures forall leaf, f :: leaf in readers && f in readers[leaf] ==> exists i :: 0 <= i < |mods| && mods[i].file == f
  {
    writes, readers := map[], map[];
    for k := 0 to |mods|
      invariant forall leaf, i :: 0 <= i < k ==> (leaf in writes && mods[i].file in writes[leaf] <==> WritesField(mods, i, leaf))
      invariant forall leaf, i :: 0 <= i < k ==> (leaf in readers && mods[i].file in readers[leaf] <==> ReadsField(mods[i], leaf))
      invariant forall leaf, f :: leaf in writes && f in writes[leaf] ==> exists i :: 0 <= i < k && mods[i].file == f
      invariant forall leaf, f :: leaf in readers && f in readers[leaf] ==> exists i :: 0 <= i < k && mods[i].file == f
    {
      var w, r := KeyPositions(mods[k].body, Elsewhere(mods, k));
      writes := Credit(writes, w, mods[k].file);
      readers := Credit(readers, r + mods[k].tables, mods[k].file);
    }
  }

  /** `file` added to the entry of every key. */
  function Credit(m: map<string, set<string>>, keys: set<string>, file: string): map<string, set<string>> {
    map k | k in m.Keys + keys :: (if k in m then m[k] else {}) + (if k in keys then {file} else {})
  }

  function Classify(writes: map<string, set<string>>, readers: map<string, set<string>>, leaf: string): State {
    if leaf in writes && writes[leaf] != {} then WrittenBy
    else if leaf in readers && readers[leaf] != {} then ReadOnly
    else Orphan
  }

  /** What the census prints for a field is what its modules do to it. */
  method ClassifyField(mods: seq<Module>, leaf: string) returns (s: State)
    requires forall i, j :: 0 <= i < j < |mods| ==> mods[i].file != mods[j].file
    ensures s == StateOf(mods, leaf)
  {
    var writes, readers := ScanModules(mods);
    s := Classify(writes, readers, leaf);
    if leaf in writes && writes[leaf] != {} {
      ghost var f :| f in writes[leaf];
    }
    if leaf in readers && readers[leaf] != {} {
      ghost var f :| f in readers[leaf];
    }
  }

  /** `more` has every module of `mods`, with at least as much named outside it. */
  ghost predicate Extends(mods: seq<Module>, more: seq<Module>) {
    forall i: nat :: i < |mods| ==> Matched(mods, i, more)
  }

  ghost predicate Matched(mods: seq<Module>, i: nat, more: seq<Module>)
    requires i < |mods|
  {
    exists j: nat :: Matches(mods, i, more, j)
  }

  ghost predicate Matches(mods: seq<Module>, i: nat, more: seq<Module>, j: nat)
    requires i < |mods|
  {
    && j < |more| && more[j].body == mods[i].body && mods[i].tables <= more[j].tables
    && Elsewhere(mods, i) <= Elsewhere(more, j)
  }

  /** Whatever more is named, and whatever modules are added, no field moves towards orphan. */
  lemma FieldsMoveTowardsWritten(mods: seq<Module>, more: seq<Module>, leaf: string)
    requires Extends(mods, more)
    ensures NotTowardsOrphan(StateOf(mods, leaf), StateOf(more, leaf))
  {
    if i :| 0 <= i < |mods| && WritesField(mods, i, leaf) {
      assert Matched(mods, i, more);
      var j: nat :| Matches(mods, i, more, j);
      NamingMoreWritesMore(mods[i].body, Elsewhere(mods, i), Elsewhere(more, j));
      assert WritesField(more, j, leaf);
    } else if i :| 0 <= i < |mods| && ReadsField(mods[i], leaf) {
      assert Matched(mods, i, more);
      var j: nat :| Matches(mods, i, more, j);
      assert ReadsField(more[j], leaf);
    }
  }

  /** A file added to the directory, wherever it sorts. */
  lemma AddingAModule(mods: seq<Module>, at: nat, m: Module, leaf: string)
    requires at <= |mods|
    ensures NotTowardsOrphan(StateOf(mods, leaf), StateOf(mods[..at] + [m] + mods[at..], leaf))
  {
    var more := mods[..at] + [m] + mods[at..];
    forall i: nat | i < |mods| ensures Matched(mods, i, more) {
      var j := if i < at then i else i + 1;
      forall n | n in Elsewhere(mods, i) ensures n in Elsewhere(more, j) {
        var k :| 0 <= k < |mods| && k != i && n in NamedBy(mods[k]);
        var l := if k < at then k else k + 1;
        assert l != j && more[l] == mods[k];
      }
      assert Matches(mods, i, more, j);
    }
    FieldsMoveTowardsWritten(mods, more, leaf);
  }

  /** A name added to what one module imports. */
  lemma ImportingMore(mods: seq<Module>, at: nat, name: string, leaf: string)
    requires at < |mods|
    ensures var m := mods[at];
            NotTowardsOrphan(StateOf(mods, leaf), StateOf(mods[at := m.(imported := m.imported + {name})], leaf))
  {
    var more := mods[at := mods[at].(imported := mods[at].imported + {name})];
    forall i: nat | i < |mods| ensures Matched(mods, i, more) {
      forall n | n in Elsewhere(mods, i) ensures n in Elsewhere(more, i) {
        var k :| 0 <= k < |mods| && k != i && n in NamedBy(mods[k]);
        assert n in NamedBy(more[k]);
      }
      assert Matches(mods, i, more, i);
    }
    FieldsMoveTowardsWritten(mods, more, leaf);
  }
}
