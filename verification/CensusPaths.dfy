/**
  * What the census decides, said of the syntax trees themselves: a node lies within another
  * where a path of child numbers leads to it, a function names another where such a node of
  * its definition does, and a fixture is what only chains of such names from a control reach.
  */
module CensusPaths {
  import opened Prelude
  import opened Splitting
  import opened ControlOnly
  import opened FieldCensus

  // ---------------------------------------------------------------- nodes within nodes

  /** The node a path of child numbers leads to. */
  function Below(node: Ast, path: seq<nat>): Option<Ast>
    decreases |path|
  {
    if path == [] then Some(node)
    else if path[0] < |node.kids| then Below(node.kids[path[0]], path[1..])
    else None
  }

  /** Some node within `node`, itself included, mentions the name. */
  ghost predicate MentionedIn(node: Ast, n: string) {
    exists path :: MentionedAt(node, path, n)
  }

  predicate MentionedAt(node: Ast, path: seq<nat>, n: string) {
    Below(node, path).Some? && n in Below(node, path).value.mentions
  }

  ghost predicate ReadIn(node: Ast, k: string) {
    exists path :: ReadAt(node, path, k)
  }

  predicate ReadAt(node: Ast, path: seq<nat>, k: string) {
    Below(node, path).Some? && k in Below(node, path).value.gets
  }

  /** Some node within puts the key, with no control on the way down to it. */
  ghost predicate PutIn(node: Ast, k: string) {
    exists path :: PutAt(node, path, k)
  }

  ghost predicate PutAt(node: Ast, path: seq<nat>, k: string) {
    && Below(node, path).Some? && k in Below(node, path).value.puts
    && forall l: nat :: l <= |path| ==> OutsideControls(node, path[..l])
  }

  predicate OutsideControls(node: Ast, path: seq<nat>) {
    Below(node, path).Some? ==> (Below(node, path).value.def.Some? ==> !IsControl(Below(node, path).value.def.value))
  }

  lemma InKid(node: Ast, i: nat, path: seq<nat>)
    requires i < |node.kids|
    ensures Below(node, [i] + path) == Below(node.kids[i], path)
  {
    assert ([i] + path)[1..] == path;
  }

  lemma {:induction false} MentionsIff(node: Ast, names: set<string>, n: string)
    ensures n in Mentions(node, names) <==> n in names && MentionedIn(node, n)
    decreases node, 1
  {
    MentionsAllIff(node.kids, names, n);
    if MentionedIn(node, n) {
      var path :| MentionedAt(node, path, n);
      if path != [] {
        assert MentionedAt(node.kids[path[0]], path[1..], n);
      }
    }
    if n in node.mentions {
      assert MentionedAt(node, [], n);
    }
    if i :| 0 <= i < |node.kids| && MentionedIn(node.kids[i], n) {
      var path :| MentionedAt(node.kids[i], path, n);
      InKid(node, i, path);
      assert MentionedAt(node, [i] + path, n);
    }
  }

  lemma {:induction false} MentionsAllIff(nodes: seq<Ast>, names: set<string>, n: string)
    ensures n in MentionsAll(nodes, names) <==> n in names && exists i :: 0 <= i < |nodes| && MentionedIn(nodes[i], n)
    decreases nodes, 0
  {
    if nodes != [] {
      MentionsIff(nodes[0], names, n);
      MentionsAllIff(nodes[1..], names, n);
      assert nodes == [nodes[0]] + nodes[1..];
    }
  }

  lemma {:induction false} NamedIff(node: Ast, n: string)
    ensures n in Named(node) <==> MentionedIn(node, n)
    decreases node, 1
  {
    NamedAllIff(node.kids, n);
    if MentionedIn(node, n) {
      var path :| MentionedAt(node, path, n);
      if path != [] {
        assert MentionedAt(node.kids[path[0]], path[1..], n);
      }
    }
    if n in node.mentions {
      assert MentionedAt(node, [], n);
    }
    if i :| 0 <= i < |node.kids| && MentionedIn(node.kids[i], n) {
      var path :| MentionedAt(node.kids[i], path, n);
      InKid(node, i, path);
      assert MentionedAt(node, [i] + path, n);
    }
  }

  lemma {:induction false} NamedAllIff(nodes: seq<Ast>, n: string)
    ensures n in NamedAll(nodes) <==> exists i :: 0 <= i < |nodes| && MentionedIn(nodes[i], n)
    decreases nodes, 0
  {
    if nodes != [] {
      NamedIff(nodes[0], n);
      NamedAllIff(nodes[1..], n);
      assert nodes == [nodes[0]] + nodes[1..];
    }
  }

  lemma {:induction false} GetsIff(node: Ast, k: string)
    ensures k in Gets(node) <==> ReadIn(node, k)
    decreases node, 1
  {
    GetsAllIff(node.kids, k);
    if ReadIn(node, k) {
      var path :| ReadAt(node, path, k);
      if path != [] {
        assert ReadAt(node.kids[path[0]], path[1..], k);
      }
    }
    if k in node.gets {
      assert ReadAt(node, [], k);
    }
    if i :| 0 <= i < |node.kids| && ReadIn(node.kids[i], k) {
      var path :| ReadAt(node.kids[i], path, k);
      InKid(node, i, path);
      assert ReadAt(node, [i] + path, k);
    }
  }

  lemma {:induction false} GetsAllIff(nodes: seq<Ast>, k: string)
    ensures k in GetsAll(nodes) <==> exists i :: 0 <= i < |nodes| && ReadIn(nodes[i], k)
    decreases nodes, 0
  {
    if nodes != [] {
      GetsIff(nodes[0], k);
      GetsAllIff(nodes[1..], k);
      assert nodes == [nodes[0]] + nodes[1..];
    }
  }

  lemma PutInKid(node: Ast, i: nat, path: seq<nat>, k: string)
    requires i < |node.kids|
    ensures PutAt(node, [i] + path, k) <==> OutsideControls(node, []) && PutAt(node.kids[i], path, k)
  {
    InKid(node, i, path);
    var whole := [i] + path;
    forall l: nat | l <= |path| ensures OutsideControls(node, whole[..l + 1]) <==> OutsideControls(node.kids[i], path[..l]) {
      InKid(node, i, path[..l]);
      assert whole[..l + 1] == [i] + path[..l];
    }
    assert whole[..0] == [];
    if PutAt(node, whole, k) {
      forall l: nat | l <= |path| ensures OutsideControls(node.kids[i], path[..l]) {
        assert OutsideControls(node, whole[..l + 1]);
      }
      assert OutsideControls(node, whole[..0]);
    }
    if OutsideControls(node, []) && PutAt(node.kids[i], path, k) {
      forall l: nat | l <= |whole| ensures OutsideControls(node, whole[..l]) {
        if l > 0 {
          assert OutsideControls(node.kids[i], path[..l - 1]);
        }
      }
    }
  }

  lemma {:induction false} PutsIff(node: Ast, inside: bool, k: string)
    ensures k in Puts(node, inside) <==> !inside && PutIn(node, k)
    decreases node, 1
  {
    var within := inside || EntersControl(node);
    PutsAllIff(node.kids, within, k);
    if PutIn(node, k) {
      var path :| PutAt(node, path, k);
      assert OutsideControls(node, path[..0]) && path[..0] == [];
      if path != [] {
        assert path == [path[0]] + path[1..];
        PutInKid(node, path[0], path[1..], k);
      }
    }
    if !within && k in node.puts {
      assert PutAt(node, [], k);
    }
    if i :| 0 <= i < |node.kids| && !within && PutIn(node.kids[i], k) {
      var path :| PutAt(node.kids[i], path, k);
      PutInKid(node, i, path, k);
    }
  }

  lemma {:induction false} PutsAllIff(nodes: seq<Ast>, inside: bool, k: string)
    ensures k in PutsAll(nodes, inside) <==> !inside && exists i :: 0 <= i < |nodes| && PutIn(nodes[i], k)
    decreases nodes, 0
  {
    if nodes != [] {
      PutsIff(nodes[0], inside, k);
      PutsAllIff(nodes[1..], inside, k);
      assert nodes == [nodes[0]] + nodes[1..];
    }
  }

  // ---------------------------------------------------------------- control names

  /** One of the parts between underscores is `inject` or `selftest`. */
  predicate ControlName(name: string) {
    "inject" in Split(name, '_') || "selftest" in Split(name, '_')
  }

  /** The first part of a text and what follows its separator. */
  lemma {:induction false} FirstPart(s: string, sep: char)
    ensures var first := Split(s, sep)[0];
            && |first| <= |s| && s[..|first|] == first && sep !in first
            && if |first| == |s| then Split(s, sep) == [first]
               else s[|first|] == sep && Split(s, sep) == [first] + Split(s[|first| + 1..], sep)
  {
    if s != "" {
      var rest := Split(s[1..], sep);
      FirstPart(s[1..], sep);
      if s[0] != sep {
        var first := [s[0]] + rest[0];
        assert Split(s, sep) == [first] + rest[1..];
        if |rest[0]| < |s[1..]| {
          assert s[1..][|rest[0]| + 1..] == s[|first| + 1..];
        }
      } else {
        assert s[|""| + 1..] == s[1..];
      }
    }
  }

  lemma NoSeparatorAt(part: string, sep: char, k: nat)
    requires sep !in part && k < |part|
    ensures part[k] != sep
  {
    assert part[k] in part;
  }

  lemma PartAtFront(word: string, name: string)
    requires '_' !in word
    ensures |word| <= |name| && IsPartAt(word, name, 0) <==> Split(name, '_')[0] == word
  {
    var first := Split(name, '_')[0];
    FirstPart(name, '_');
    if |first| < |word| {
      NoSeparatorAt(word, '_', |first|);
    } else if |word| < |first| {
      NoSeparatorAt(first, '_', |word|);
    }
  }

  /** Where the part begins at all: at the front, or behind the first part and its separator. */
  lemma PartBehindFirst(word: string, name: string, i: nat)
    requires '_' !in word && i + |word| <= |name| && IsPartAt(word, name, i) && i > 0
    ensures i > |Split(name, '_')[0]|
  {
    var first := Split(name, '_')[0];
    FirstPart(name, '_');
    var k: nat := i - 1;
    if k < |first| {
      NoSeparatorAt(first, '_', k);
    }
  }

  lemma {:induction false} PartIff(word: string, name: string)
    requires '_' !in word
    ensures IsPart(word, name) <==> word in Split(name, '_')
    decreases |name|
  {
    var first := Split(name, '_')[0];
    FirstPart(name, '_');
    PartAtFront(word, name);
    if |first| < |name| {
      PartIff(word, name[|first| + 1..]);
    }
    if IsPart(word, name) {
      var i :| 0 <= i <= |name| - |word| && IsPartAt(word, name, i);
      if i > 0 {
        PartBehindFirst(word, name, i);
        PartShifts(word, name, |first| + 1, i - (|first| + 1));
      }
    }
    if |first| < |name| && IsPart(word, name[|first| + 1..]) {
      var tail := name[|first| + 1..];
      var i :| 0 <= i <= |tail| - |word| && IsPartAt(word, tail, i);
      PartShifts(word, name, |first| + 1, i);
    }
  }

  lemma PartShifts(word: string, name: string, at: nat, i: nat)
    requires 0 < at <= |name| && name[at - 1] == '_' && i + |word| <= |name| - at
    ensures IsPartAt(word, name, at + i) <==> IsPartAt(word, name[at..], i)
  {
    assert name[at..][i..i + |word|] == name[at + i..at + i + |word|];
  }

  lemma ControlNameIff(name: string)
    ensures IsControl(name) <==> ControlName(name)
  {
    PartIff("inject", name);
    PartIff("selftest", name);
  }

  // ---------------------------------------------------------------- chains of names

  predicate Defined(body: seq<Ast>, n: string) {
    exists i :: 0 <= i < |body| && body[i].def == Some(n)
  }

  /** Statement `i` is the definition the module ends up with under the name. */
  predicate DefinedLast(body: seq<Ast>, i: nat, n: string) {
    i < |body| && body[i].def == Some(n) && forall j :: i < j < |body| ==> body[j].def != Some(n)
  }

  /** The definition of `m` names `n`, another function of the module. */
  ghost predicate NamesIt(body: seq<Ast>, m: string, n: string) {
    m != n && Defined(body, n) && exists i: nat :: DefinedLast(body, i, m) && MentionedIn(body[i], n)
  }

  /** A statement that defines nothing in the end names `n`. */
  ghost predicate NamedOutside(body: seq<Ast>, n: string) {
    Defined(body, n) && exists i: nat :: i < |body| && !(exists m :: DefinedLast(body, i, m)) && MentionedIn(body[i], n)
  }

  /** Spared whatever a control does: named outside every definition, in another module, or nowhere. */
  ghost predicate Spared(body: seq<Ast>, elsewhere: set<string>, n: string) {
    && Defined(body, n) && !ControlName(n)
    && (NamedOutside(body, n) || n in elsewhere || forall m :: !NamesIt(body, m, n))
  }

  ghost predicate Chain(body: seq<Ast>, p: seq<string>, n: string) {
    p != [] && p[|p| - 1] == n && forall i :: 0 <= i < |p| - 1 ==> NamesIt(body, p[i], p[i + 1])
  }

  ghost predicate FromControl(body: seq<Ast>, p: seq<string>, n: string) {
    Chain(body, p, n) && Defined(body, p[0]) && ControlName(p[0])
  }

  ghost predicate FromSpared(body: seq<Ast>, elsewhere: set<string>, p: seq<string>, n: string) {
    Chain(body, p, n) && Spared(body, elsewhere, p[0]) && forall i :: 0 <= i < |p| ==> !ControlName(p[i])
  }

  /** A function that is no control, that a chain from a control leads to, and no chain without controls from one that is spared. */
  ghost predicate Fixture(body: seq<Ast>, elsewhere: set<string>, n: string) {
    && Defined(body, n) && !ControlName(n)
    && (exists p :: FromControl(body, p, n)) && !exists p :: FromSpared(body, elsewhere, p, n)
  }

  lemma NamesAreDefined(body: seq<Ast>, n: string)
    ensures n in Names(body) <==> Defined(body, n)
    ensures n in Roots(body) <==> Defined(body, n) && ControlName(n)
  {
    ControlNameIff(n);
  }

  lemma LastIsLast(body: seq<Ast>, n: string, i: nat)
    requires n in Names(body)
    ensures DefinedLast(body, i, n) <==> i == LastDef(body, n)
  {
    assert body[LastDef(body, n)].def == Some(n);
  }

  /** What a definition names is what the one definition the module ends up with names. */
  lemma NamesItIff(body: seq<Ast>, m: string, i: nat, n: string)
    requires DefinedLast(body, i, m)
    ensures NamesIt(body, m, n) <==> m != n && Defined(body, n) && MentionedIn(body[i], n)
  {
    if j: nat :| DefinedLast(body, j, m) && MentionedIn(body[j], n) {
      assert j == i;
    }
  }

  lemma EdgeIff(body: seq<Ast>, m: string, n: string)
    ensures m in Edges(body) && n in Edges(body)[m] <==> NamesIt(body, m, n)
  {
    NamesAreDefined(body, m);
    NamesAreDefined(body, n);
    if m in Names(body) {
      var i := LastDef(body, m);
      LastIsLast(body, m, i);
      NamesItIff(body, m, i, n);
      MentionsIff(body[i], Names(body), n);
    } else {
      assert forall j: nat :: !DefinedLast(body, j, m);
    }
  }

  lemma {:induction false} ModuleLevelIff(body: seq<Ast>, i: nat, n: string)
    requires i <= |body|
    ensures n in ModuleLevel(body, i) <==>
            n in Names(body) && exists j: nat :: i <= j < |body| && !Defines(body, j) && MentionedIn(body[j], n)
    decreases |body| - i
  {
    if i < |body| {
      ModuleLevelIff(body, i + 1, n);
      MentionsIff(body[i], Names(body), n);
    }
  }

  lemma OutsideIff(body: seq<Ast>, n: string)
    ensures n in ModuleLevel(body, 0) <==> NamedOutside(body, n)
  {
    ModuleLevelIff(body, 0, n);
    NamesAreDefined(body, n);
    forall j: nat | j < |body| ensures Defines(body, j) <==> exists m :: DefinedLast(body, j, m) {
      if Defines(body, j) {
        assert DefinedLast(body, j, body[j].def.value);
      }
    }
  }

  lemma SeedIff(body: seq<Ast>, elsewhere: set<string>, n: string)
    ensures n in Seeds(body, elsewhere) <==> Spared(body, elsewhere, n)
  {
    NamesAreDefined(body, n);
    OutsideIff(body, n);
    forall m ensures m in Edges(body) && n in Edges(body)[m] <==> NamesIt(body, m, n) {
      EdgeIff(body, m, n);
    }
  }

  lemma ChainIsPath(body: seq<Ast>, seeds: set<string>, blocked: set<string>, p: seq<string>, n: string)
    ensures PathTo(Edges(body), seeds, blocked, p, n) <==>
            Chain(body, p, n) && p[0] in seeds && forall i :: 0 <= i < |p| ==> p[i] !in blocked
  {
    forall i | 0 <= i < |p| - 1 ensures NamesIt(body, p[i], p[i + 1]) <==> p[i] in Edges(body) && p[i + 1] in Edges(body)[p[i]] {
      EdgeIff(body, p[i], p[i + 1]);
    }
    if PathTo(Edges(body), seeds, blocked, p, n) {
      forall i | 0 <= i < |p| ensures p[i] !in blocked {
        if i > 0 {
          assert Step(Edges(body), blocked, p[i - 1], p[i]);
        }
      }
      forall i | 0 <= i < |p| - 1 ensures NamesIt(body, p[i], p[i + 1]) {
        assert Step(Edges(body), blocked, p[i], p[i + 1]);
      }
    }
  }

  lemma ChainIsDefined(body: seq<Ast>, p: seq<string>, n: string)
    requires Chain(body, p, n) && Defined(body, p[0])
    ensures forall i :: 0 <= i < |p| ==> Defined(body, p[i])
  {
    forall i | 0 <= i < |p| ensures Defined(body, p[i]) {
      if i > 0 {
        assert NamesIt(body, p[i - 1], p[i]);
      }
    }
  }

  /** The search decides exactly which functions are fixtures. */
  lemma ControlOnlyIff(body: seq<Ast>, elsewhere: set<string>, n: string)
    ensures IsControlOnly(body, elsewhere, n) <==> Fixture(body, elsewhere, n)
  {
    NamesAreDefined(body, n);
    forall p ensures PathTo(Edges(body), Roots(body), {}, p, n) <==> FromControl(body, p, n) {
      ChainIsPath(body, Roots(body), {}, p, n);
      if p != [] {
        NamesAreDefined(body, p[0]);
      }
    }
    forall p ensures PathTo(Edges(body), Seeds(body, elsewhere), Roots(body), p, n) <==> FromSpared(body, elsewhere, p, n) {
      SparedPath(body, elsewhere, p, n);
    }
  }

  lemma SparedPath(body: seq<Ast>, elsewhere: set<string>, p: seq<string>, n: string)
    ensures PathTo(Edges(body), Seeds(body, elsewhere), Roots(body), p, n) <==> FromSpared(body, elsewhere, p, n)
  {
    ChainIsPath(body, Seeds(body, elsewhere), Roots(body), p, n);
    if Chain(body, p, n) && Spared(body, elsewhere, p[0]) {
      ChainIsDefined(body, p, n);
    }
    forall i | 0 <= i < |p| ensures p[i] in Roots(body) <==> Defined(body, p[i]) && ControlName(p[i]) {
      NamesAreDefined(body, p[i]);
    }
    if p != [] {
      SeedIff(body, elsewhere, p[0]);
    }
  }

  // ---------------------------------------------------------------- keys and fields

  /** Some statement puts the key, with no control on the way to it and not as a fixture's definition. */
  ghost predicate WritesKey(body: seq<Ast>, elsewhere: set<string>, k: string) {
    exists i: nat :: i < |body| && PutIn(body[i], k) && !(exists n :: DefinedLast(body, i, n) && Fixture(body, elsewhere, n))
  }

  ghost predicate ReadsKey(body: seq<Ast>, k: string) {
    exists i: nat :: i < |body| && ReadIn(body[i], k)
  }

  lemma {:induction false} PutsFromIff(body: seq<Ast>, only: set<string>, i: nat, k: string)
    requires i <= |body|
    ensures k in PutsFrom(body, only, i) <==> exists j: nat :: i <= j < |body| && PutIn(body[j], k) && !Excluded(body, only, j)
    decreases |body| - i
  {
    if i < |body| {
      PutsFromIff(body, only, i + 1, k);
      PutsIff(body[i], Excluded(body, only, i), k);
    }
  }

  lemma ExcludedIff(body: seq<Ast>, elsewhere: set<string>, i: nat)
    requires i < |body|
    ensures Excluded(body, ControlOnlySet(body, elsewhere), i) <==> exists n :: DefinedLast(body, i, n) && Fixture(body, elsewhere, n)
  {
    if Excluded(body, ControlOnlySet(body, elsewhere), i) {
      var n := body[i].def.value;
      ControlOnlyIff(body, elsewhere, n);
      assert DefinedLast(body, i, n) && Fixture(body, elsewhere, n);
    }
    if n :| DefinedLast(body, i, n) && Fixture(body, elsewhere, n) {
      ControlOnlyIff(body, elsewhere, n);
    }
  }

  /** What a module is taken to write and to read. */
  lemma KeysIff(body: seq<Ast>, elsewhere: set<string>, k: string)
    ensures k in Written(body, elsewhere) <==> WritesKey(body, elsewhere, k)
    ensures k in GetsAll(body) <==> ReadsKey(body, k)
  {
    PutsFromIff(body, ControlOnlySet(body, elsewhere), 0, k);
    GetsAllIff(body, k);
    forall i: nat | i < |body|
      ensures Excluded(body, ControlOnlySet(body, elsewhere), i) <==> exists n :: DefinedLast(body, i, n) && Fixture(body, elsewhere, n)
    {
      ExcludedIff(body, elsewhere, i);
    }
  }

  ghost predicate NamedByModule(m: Module, n: string) {
    n in m.imported || exists i :: 0 <= i < |m.body| && MentionedIn(m.body[i], n)
  }

  lemma ElsewhereIff(mods: seq<Module>, i: nat, n: string)
    ensures n in Elsewhere(mods, i) <==> exists j :: 0 <= j < |mods| && j != i && NamedByModule(mods[j], n)
  {
    forall j | 0 <= j < |mods| ensures n in NamedBy(mods[j]) <==> NamedByModule(mods[j], n) {
      NamedAllIff(mods[j].body, n);
    }
  }

  ghost predicate ModuleWrites(mods: seq<Module>, i: nat, leaf: string)
    requires i < |mods|
  {
    WritesKey(mods[i].body, Elsewhere(mods, i), leaf)
  }

  ghost predicate ModuleReads(m: Module, leaf: string) {
    ReadsKey(m.body, leaf) || leaf in m.tables
  }

  /** What is printed for a field: written if some module writes it, read only if none does and some module reads it. */
  lemma FieldStateIff(mods: seq<Module>, leaf: string)
    ensures StateOf(mods, leaf) == WrittenBy <==> exists i :: 0 <= i < |mods| && ModuleWrites(mods, i, leaf)
    ensures StateOf(mods, leaf) == Orphan <==>
            forall i :: 0 <= i < |mods| ==> !ModuleWrites(mods, i, leaf) && !ModuleReads(mods[i], leaf)
  {
    forall i | 0 <= i < |mods|
      ensures WritesField(mods, i, leaf) <==> ModuleWrites(mods, i, leaf)
      ensures ReadsField(mods[i], leaf) <==> ModuleReads(mods[i], leaf)
    {
      KeysIff(mods[i].body, Elsewhere(mods, i), leaf);
    }
  }
}
