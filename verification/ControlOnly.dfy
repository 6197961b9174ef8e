/**
  * Which functions of a module only its control suites reach: a worklist search with
  * blocked nodes, and what it decides in terms of paths.
  */
module ControlOnly {
  import opened Prelude

  // ---------------------------------------------------------------- syntax trees

  /**
    * A syntax node: the function it defines, if it defines one, the names and strings
    * it mentions itself, the keys it writes and reads itself, and its children.
    */
  datatype Ast = Ast(def: Option<string>, mentions: set<string>, puts: set<string>, gets: set<string>, kids: seq<Ast>)

  function Mentions(node: Ast, names: set<string>): (r: set<string>)
    ensures r <= names
  {
    node.mentions * names + MentionsAll(node.kids, names)
  }

  function MentionsAll(nodes: seq<Ast>, names: set<string>): (r: set<string>)
    ensures r <= names
  {
    if nodes == [] then {} else Mentions(nodes[0], names) + MentionsAll(nodes[1..], names)
  }

  /** A control entry point has `inject` or `selftest` as one of the parts `_` separates. */
  predicate IsControl(name: string) {
    IsPart("inject", name) || IsPart("selftest", name)
  }

  predicate IsPart(word: string, name: string) {
    exists i :: 0 <= i <= |name| - |word| && IsPartAt(word, name, i)
  }

  predicate IsPartAt(word: string, name: string, i: int)
    requires 0 <= i <= |name| - |word|
  {
    && (i == 0 || name[i - 1] == '_') && name[i..i + |word|] == word
    && (i + |word| == |name| || name[i + |word|] == '_')
  }

  // ---------------------------------------------------------------- a module's functions

  /** Statement `i` is the definition its name ends up with: the last one of that name. */
  predicate Defines(body: seq<Ast>, i: nat)
    requires i < |body|
  {
    body[i].def.Some? && forall j :: i < j < |body| ==> body[j].def != body[i].def
  }

  function Names(body: seq<Ast>): set<string> {
    set i | 0 <= i < |body| && body[i].def.Some? :: body[i].def.value
  }

  function LastDef(body: seq<Ast>, n: string): (i: nat)
    requires n in Names(body)
    ensures i < |body| && body[i].def == Some(n) && Defines(body, i)
  {
    if body[|body| - 1].def == Some(n) then |body| - 1
    else
      var i := LastDef(body[..|body| - 1], n);
      i
  }

  function Roots(body: seq<Ast>): set<string> {
    set n | n in Names(body) && IsControl(n)
  }

  function Edges(body: seq<Ast>): map<string, set<string>> {
    map n | n in Names(body) :: Mentions(body[LastDef(body, n)], Names(body)) - {n}
  }

  /** What the statements that define no function mention, from statement `i` on. */
  function ModuleLevel(body: seq<Ast>, i: nat): (r: set<string>)
    requires i <= |body|
    ensures r <= Names(body)
    decreases |body| - i
  {
    if i == |body| then {}
    else (if Defines(body, i) then {} else Mentions(body[i], Names(body))) + ModuleLevel(body, i + 1)
  }

  function Referenced(body: seq<Ast>): set<string> {
    ModuleLevel(body, 0) + set n, m | n in Edges(body) && m in Edges(body)[n] :: m
  }

  /** The functions spared outright: named at module level, unreferenced, or named elsewhere. */
  function Seeds(body: seq<Ast>, elsewhere: set<string>): (r: set<string>)
    ensures r <= Names(body) - Roots(body)
  {
    (ModuleLevel(body, 0) + (Names(body) - Referenced(body)) + Names(body) * elsewhere) - Roots(body)
  }

  // ---------------------------------------------------------------- paths

  type Graph = map<string, set<string>>

  predicate Step(g: Graph, blocked: set<string>, m: string, n: string) {
    m in g && n in g[m] && n !in blocked
  }

  /** `p` leads from a seed to its end, over edges, through no blocked node. */
  predicate Path(g: Graph, seeds: set<string>, blocked: set<string>, p: seq<string>) {
    && p != [] && p[0] in seeds && p[0] !in blocked
    && forall i :: 0 <= i < |p| - 1 ==> Step(g, blocked, p[i], p[i + 1])
  }

  ghost predicate PathTo(g: Graph, seeds: set<string>, blocked: set<string>, p: seq<string>, n: string) {
    Path(g, seeds, blocked, p) && p[|p| - 1] == n
  }

  ghost predicate Reaches(g: Graph, seeds: set<string>, blocked: set<string>, n: string) {
    exists p :: PathTo(g, seeds, blocked, p, n)
  }

  lemma SeedReaches(g: Graph, seeds: set<string>, blocked: set<string>, n: string)
    requires n in seeds && n !in blocked
    ensures Reaches(g, seeds, blocked, n)
  {
    assert PathTo(g, seeds, blocked, [n], n);
  }

  lemma StepReaches(g: Graph, seeds: set<string>, blocked: set<string>, m: string, n: string)
    requires Reaches(g, seeds, blocked, m) && Step(g, blocked, m, n)
    ensures Reaches(g, seeds, blocked, n)
  {
    var p :| PathTo(g, seeds, blocked, p, m);
    assert PathTo(g, seeds, blocked, p + [n], n);
  }

  ghost predicate Closed(g: Graph, blocked: set<string>, s: set<string>) {
    forall m, n :: m in s && Step(g, blocked, m, n) ==> n in s
  }

  lemma {:induction false} ClosedHoldsPath(g: Graph, seeds: set<string>, blocked: set<string>, p: seq<string>, s: set<string>)
    requires Path(g, seeds, blocked, p) && Closed(g, blocked, s) && forall n :: n in seeds && n !in blocked ==> n in s
    ensures p[|p| - 1] in s
    decreases |p|
  {
    if |p| > 1 {
      var q := p[..|p| - 1];
      assert Path(g, seeds, blocked, q);
      ClosedHoldsPath(g, seeds, blocked, q, s);
      assert Step(g, blocked, p[|p| - 2], p[|p| - 1]);
    }
  }

  // ---------------------------------------------------------------- the search

  method InAnyOrder(s: set<string>) returns (r: seq<string>)
    ensures forall n :: n in r <==> n in s
  {
    r := [];
    var left := s;
    while left != {}
      invariant left <= s && forall n :: n in s <==> n in r || n in left
      decreases left
    {
      var n :| n in left;
      r := r + [n];
      left := left - {n};
    }
  }

  /** Depth first, with a stack and a `seen` set; finds exactly what a path leads to. */
  method Walk(g: Graph, seeds: set<string>, blocked: set<string>) returns (seen: set<string>)
    requires seeds <= g.Keys && forall m :: m in g ==> g[m] <= g.Keys
    ensures seen <= g.Keys && forall n :: n in seen <==> Reaches(g, seeds, blocked, n)
  {
    seen := {};
    var stack := InAnyOrder(seeds - blocked);
    forall n | n in stack ensures Reaches(g, seeds, blocked, n) {
      SeedReaches(g, seeds, blocked, n);
    }
    while stack != []
      invariant seen <= g.Keys
      invariant forall n :: n in stack || n in seen ==> n in g && Reaches(g, seeds, blocked, n)
      invariant forall n :: n in seeds && n !in blocked ==> n in seen || n in stack
      invariant forall m, n :: m in seen && Step(g, blocked, m, n) ==> n in seen || n in stack
      decreases g.Keys - seen, |stack|
    {
      var n := stack[|stack| - 1];
      ghost var before := stack;
      stack := stack[..|stack| - 1];
      assert before == stack + [n];
      if n !in seen {
        seen := seen + {n};
        var next := InAnyOrder(g[n] - blocked);
        forall m | m in next ensures m in g && Reaches(g, seeds, blocked, m) {
          StepReaches(g, seeds, blocked, n, m);
        }
        stack := stack + next;
      }
    }
    forall n | Reaches(g, seeds, blocked, n) ensures n in seen {
      var p :| PathTo(g, seeds, blocked, p, n);
      ClosedHoldsPath(g, seeds, blocked, p, seen);
    }
  }

  // ---------------------------------------------------------------- control-only

  /** Not a root, reached from a root, and from no seed along a path that avoids the roots. */
  ghost predicate IsControlOnly(body: seq<Ast>, elsewhere: set<string>, n: string) {
    && n in Names(body) && n !in Roots(body)
    && Reaches(Edges(body), Roots(body), {}, n)
    && !Reaches(Edges(body), Seeds(body, elsewhere), Roots(body), n)
  }

  method FindControlOnly(body: seq<Ast>, elsewhere: set<string>) returns (roots: set<string>, only: set<string>)
    ensures roots == Roots(body)
    ensures forall n :: n in only <==> IsControlOnly(body, elsewhere, n)
  {
    roots := Roots(body);
    var g := Edges(body);
    if roots == {} {
      only := {};
      forall n ensures !IsControlOnly(body, elsewhere, n) {
      }
      return;
    }
    var spared := Walk(g, Seeds(body, elsewhere), roots);
    var reached := Walk(g, roots, {});
    only := reached - spared - roots;
  }

  lemma MoreSeedsReachMore(g: Graph, seeds: set<string>, more: set<string>, blocked: set<string>, n: string)
    requires seeds <= more && Reaches(g, seeds, blocked, n)
    ensures Reaches(g, more, blocked, n)
  {
    var p :| PathTo(g, seeds, blocked, p, n);
    assert PathTo(g, more, blocked, p, n);
  }

  /** Naming more elsewhere only ever spares functions. */
  lemma NamingMoreSpares(body: seq<Ast>, elsewhere: set<string>, more: set<string>, n: string)
    requires elsewhere <= more && IsControlOnly(body, more, n)
    ensures IsControlOnly(body, elsewhere, n)
  {
    if Reaches(Edges(body), Seeds(body, elsewhere), Roots(body), n) {
      MoreSeedsReachMore(Edges(body), Seeds(body, elsewhere), Seeds(body, more), Roots(body), n);
    }
  }

  /** A control-only function is named only from the control suites and from control-only functions. */
  lemma OnlyControlsNameIt(body: seq<Ast>, elsewhere: set<string>, m: string, n: string)
    requires IsControlOnly(body, elsewhere, n) && m in Names(body) && n in Edges(body)[m]
    ensures m in Roots(body) || !Reaches(Edges(body), Seeds(body, elsewhere), Roots(body), m)
    ensures n !in ModuleLevel(body, 0) && n !in elsewhere
  {
    if m !in Roots(body) && Reaches(Edges(body), Seeds(body, elsewhere), Roots(body), m) {
      StepReaches(Edges(body), Seeds(body, elsewhere), Roots(body), m, n);
    }
    if n in Seeds(body, elsewhere) {
      SeedReaches(Edges(body), Seeds(body, elsewhere), Roots(body), n);
    }
  }
}
