/**
  * What makes a family more than the scanner's own output: whether its membership is a
  * function of the recorded rule-set, how dispersed its rules are, and whether its
  * markers are in the bytes.
  */
module FamilyEvidence {
  import opened Prelude
  import opened JsonValues

  type Row = Fields

  function Sha(r: Row): Json {
    Get(r, "sha256")
  }

  function Strings(items: seq<Json>): set<string> {
    if items == [] then {} else (if items[0].Str? then {items[0].s} else {}) + Strings(items[1..])
  }

  /** The expected rules recorded on a row, as a set. */
  function Rules(r: Row): set<string> {
    var expected := Get(r, "expect");
    if expected.Obj? && Get(expected.fields, "must_detect").Arr? then Strings(Get(expected.fields, "must_detect").items) else {}
  }

  // ---------------------------------------------------------------- a function of the rule-set

  /** Every row of the population that shares a family row's key is in the family. */
  ghost predicate Determined(family: seq<Row>, population: seq<Row>, key: Row -> string) {
    forall r, p :: r in family && p in population && key(p) == key(r) ==> exists f :: f in family && Sha(f) == Sha(p)
  }

  /** Clusters the population by key, then asks of every cluster touched whether it lies inside. */
  method RulesetDetermined(family: seq<Row>, population: seq<Row>, key: Row -> string) returns (yes: bool, touched: set<string>)
    ensures yes <==> Determined(family, population, key)
    ensures touched == set r | r in family :: key(r)
  {
    var shas := set r | r in family :: Sha(r);
    touched := set r | r in family :: key(r);
    var byKey: map<string, set<Json>> := map[];
    for k := 0 to |population|
      invariant forall i :: 0 <= i < k ==> key(population[i]) in byKey && Sha(population[i]) in byKey[key(population[i])]
      invariant forall c, s :: c in byKey && s in byKey[c] ==>
                  exists i :: 0 <= i < k && key(population[i]) == c && Sha(population[i]) == s
    {
      var c := key(population[k]);
      byKey := byKey[c := (if c in byKey then byKey[c] else {}) + {Sha(population[k])}];
    }
    yes := forall c :: c in touched && c in byKey ==> byKey[c] <= shas;
    if yes {
      forall r, p | r in family && p in population && key(p) == key(r) ensures exists f :: f in family && Sha(f) == Sha(p) {
        assert key(r) in touched;
        assert Sha(p) in byKey[key(p)];
        assert Sha(p) in shas;
      }
    } else {
      ghost var c :| c in touched && c in byKey && !(byKey[c] <= shas);
      ghost var s :| s in byKey[c] && s !in shas;
      ghost var r :| r in family && key(r) == c;
      ghost var i :| 0 <= i < |population| && key(population[i]) == c && Sha(population[i]) == s;
      assert population[i] in population;
    }
  }

  /** A set of keys decides membership for every row of the population. */
  ghost predicate Decides(keys: set<string>, family: seq<Row>, population: seq<Row>, key: Row -> string) {
    forall p :: p in population ==> ((exists f :: f in family && Sha(f) == Sha(p)) <==> key(p) in keys)
  }

  /** A row of the population that has a family row's sha256 also has a family row's key. */
  ghost predicate ListedByKey(family: seq<Row>, population: seq<Row>, key: Row -> string) {
    forall f, p :: f in family && p in population && Sha(f) == Sha(p) ==> exists r :: r in family && key(r) == key(p)
  }

  lemma DecidedIsDetermined(keys: set<string>, family: seq<Row>, population: seq<Row>, key: Row -> string)
    requires Decides(keys, family, population, key) && forall f :: f in family ==> f in population
    ensures Determined(family, population, key)
  {
    forall r, p | r in family && p in population && key(p) == key(r) ensures exists f :: f in family && Sha(f) == Sha(p) {
      assert r in population && key(r) in keys;
    }
  }

  lemma DeterminedIsDecided(family: seq<Row>, population: seq<Row>, key: Row -> string)
    requires Determined(family, population, key) && ListedByKey(family, population, key)
    ensures Decides(set r | r in family :: key(r), family, population, key)
  {
    var keys := set r | r in family :: key(r);
    forall p | p in population ensures (exists f :: f in family && Sha(f) == Sha(p)) <==> key(p) in keys {
      if key(p) in keys {
        var r :| r in family && key(r) == key(p);
      }
      if f :| f in family && Sha(f) == Sha(p) {
        var r :| r in family && key(r) == key(p);
        assert key(r) in keys;
      }
    }
  }

  /**
    * For a family inside the population: if some predicate on keys decides membership, it is
    * determined, and conversely wherever no sha256 of the family stands under a foreign key too.
    */
  lemma DeterminedIffDecided(family: seq<Row>, population: seq<Row>, key: Row -> string)
    requires forall f :: f in family ==> f in population
    ensures (exists keys :: Decides(keys, family, population, key)) ==> Determined(family, population, key)
    ensures ListedByKey(family, population, key) ==>
              (Determined(family, population, key) <==> exists keys :: Decides(keys, family, population, key))
  {
    if keys :| Decides(keys, family, population, key) {
      DecidedIsDetermined(keys, family, population, key);
    } else if Determined(family, population, key) && ListedByKey(family, population, key) {
      DeterminedIsDecided(family, population, key);
    }
  }

  /** Two such families together are such a family. */
  lemma UnionIsDetermined(a: seq<Row>, b: seq<Row>, population: seq<Row>, key: Row -> string)
    requires Determined(a, population, key) && Determined(b, population, key)
    ensures Determined(a + b, population, key)
  {
    forall r, p | r in a + b && p in population && key(p) == key(r) ensures exists f :: f in a + b && Sha(f) == Sha(p) {
      if r in a {
        var f :| f in a && Sha(f) == Sha(p);
        assert f in a + b;
      } else {
        var f :| f in b && Sha(f) == Sha(p);
        assert f in a + b;
      }
    }
  }

  // ---------------------------------------------------------------- dispersion

  /** In how many of the rule-sets the rule occurs. */
  function Occurs(sets: seq<set<string>>, x: string): (n: nat)
    ensures n <= |sets|
  {
    if sets == [] then 0 else (if x in sets[0] then 1 else 0) + Occurs(sets[1..], x)
  }

  /** How often this very rule-set occurs. */
  function Repeats(sets: seq<set<string>>, s: set<string>): (n: nat)
    ensures n <= |sets|
  {
    if sets == [] then 0 else (if sets[0] == s then 1 else 0) + Repeats(sets[1..], s)
  }

  function Detected(rows: seq<Row>): seq<set<string>> {
    if rows == [] then [] else (if Rules(rows[0]) != {} then [Rules(rows[0])] else []) + Detected(rows[1..])
  }

  datatype Dispersion = Dispersion(members: nat, detected: nat, distinct: nat, top: nat, intersectionEmpty: bool)

  lemma {:induction false} OccursSnoc(sets: seq<set<string>>, s: set<string>, x: string)
    ensures Occurs(sets + [s], x) == Occurs(sets, x) + if x in s then 1 else 0
  {
    if sets == [] {
      assert sets + [s] == [s];
    } else {
      assert (sets + [s])[1..] == sets[1..] + [s];
      OccursSnoc(sets[1..], s, x);
    }
  }

  /** `top` is the count of the most common rule. */
  ghost predicate IsTop(sets: seq<set<string>>, top: nat) {
    (forall x :: Occurs(sets, x) <= top) && exists x :: Occurs(sets, x) == top
  }

  ghost predicate Shared(sets: seq<set<string>>, x: string) {
    forall s :: s in sets ==> x in s
  }

  method DispersionDetail(rows: seq<Row>) returns (d: Dispersion)
    ensures var sets := Detected(rows);
            && d.members == |rows| && d.detected == |sets| && d.distinct == |set s | s in sets|
            && (if sets == [] then d.top == 0 else IsTop(sets, d.top))
            && (d.intersectionEmpty <==> sets == [] || !exists x :: Shared(sets, x))
  {
    var sets := Detected(rows);
    DetectedNonEmpty(rows);
    if sets == [] {
      return Dispersion(|rows|, 0, 0, 0, true);
    }
    var counts: map<string, nat> := map[];
    for k := 0 to |sets|
      invariant forall x :: Occurs(sets[..k], x) == if x in counts then counts[x] else 0
    {
      assert sets[..k + 1] == sets[..k] + [sets[k]];
      forall x ensures Occurs(sets[..k + 1], x) == Occurs(sets[..k], x) + if x in sets[k] then 1 else 0 {
        OccursSnoc(sets[..k], sets[k], x);
      }
      counts := map x | x in counts.Keys + sets[k] ::
        (if x in counts then counts[x] else 0) + if x in sets[k] then 1 else 0;
    }
    assert sets[..|sets|] == sets;
    var top, best := MostCommon(sets, counts);
    var common := sets[0];
    for k := 1 to |sets|
      invariant forall x :: x in common <==> forall i :: 0 <= i < k ==> x in sets[i]
    {
      common := common * sets[k];
    }
    SharedByAll(sets, common);
    d := Dispersion(|rows|, |sets|, |set s | s in sets|, top, common == {});
  }

  lemma SharedByAll(sets: seq<set<string>>, common: set<string>)
    requires sets != [] && forall x :: x in common <==> forall i :: 0 <= i < |sets| ==> x in sets[i]
    ensures common == {} <==> !exists x :: Shared(sets, x)
  {
    forall x ensures x in common <==> Shared(sets, x) {
      if x in common {
        assert Shared(sets, x);
      }
      if Shared(sets, x) {
        assert forall i :: 0 <= i < |sets| ==> sets[i] in sets;
      }
    }
  }

  lemma {:induction false} DetectedNonEmpty(rows: seq<Row>)
    ensures forall s :: s in Detected(rows) ==> s != {}
  {
    if rows != [] {
      DetectedNonEmpty(rows[1..]);
    }
  }

  method MostCommon(sets: seq<set<string>>, counts: map<string, nat>) returns (top: nat, best: string)
    requires forall x :: Occurs(sets, x) == if x in counts then counts[x] else 0
    ensures IsTop(sets, top) && Occurs(sets, best) == top
  {
    var left := counts.Keys;
    top, best := 0, "";
    if best in counts {
      top := counts[best];
    }
    while left != {}
      invariant left <= counts.Keys && Occurs(sets, best) == top
      invariant forall x :: x in counts && x !in left ==> counts[x] <= top
      decreases left
    {
      var x :| x in left;
      left := left - {x};
      if counts[x] > top {
        top, best := counts[x], x;
      }
    }
    assert forall x :: Occurs(sets, x) <= top;
  }

  lemma {:induction false} EverywhereIff(sets: seq<set<string>>, x: string)
    ensures Occurs(sets, x) == |sets| <==> Shared(sets, x)
  {
    if sets != [] {
      EverywhereIff(sets[1..], x);
      assert sets == [sets[0]] + sets[1..];
    }
  }

  /** The most common rule is in every detected member exactly when the rule-sets have a rule in common. */
  lemma TopIsAllIffIntersect(sets: seq<set<string>>, top: nat)
    requires sets != [] && IsTop(sets, top)
    ensures top == |sets| <==> exists x :: Shared(sets, x)
  {
    var best :| Occurs(sets, best) == top;
    EverywhereIff(sets, best);
    if x :| Shared(sets, x) {
      EverywhereIff(sets, x);
    }
  }

  /** `round(top / detected, 4)`, in ten-thousandths. */
  function Share(top: nat, detected: nat): nat
    requires detected > 0
  {
    (20000 * top + detected) / (2 * detected)
  }

  const DISPERSION_FLOOR := 5000

  predicate BelowFloor(top: nat, detected: nat)
    requires detected > 0
  {
    Share(top, detected) < DISPERSION_FLOOR
  }

  /** The share is below the floor before rounding by half a ten-thousandth. */
  lemma BelowFloorIff(top: nat, detected: nat)
    requires detected > 0
    ensures BelowFloor(top, detected) <==> 20000 * top < 9999 * detected
  {
    QuotientBelow(20000 * top + detected, 2 * detected, DISPERSION_FLOOR);
  }

  lemma QuotientBelow(n: nat, d: nat, q: nat)
    requires d > 0
    ensures n / d < q <==> n < q * d
  {
    var k := n / d;
    assert n == k * d + n % d;
    if k < q {
      MulMonotone(k + 1, q, d);
    } else {
      MulMonotone(q, k, d);
    }
  }

  lemma MulMonotone(a: nat, b: nat, d: nat)
    requires a <= b
    ensures a * d <= b * d
  {
  }

  lemma {:induction false} HasRepeats(sets: seq<set<string>>, s: set<string>, x: string)
    requires x in s
    ensures Repeats(sets, s) <= Occurs(sets, x)
  {
    if sets != [] {
      HasRepeats(sets[1..], s, x);
    }
  }

  lemma {:induction false} TwoKinds(sets: seq<set<string>>, a: set<string>, b: set<string>)
    requires forall k :: 0 <= k < |sets| ==> sets[k] == a || sets[k] == b
    ensures Repeats(sets, a) + Repeats(sets, b) >= |sets|
  {
    if sets != [] {
      TwoKinds(sets[1..], a, b);
    }
  }

  lemma AtMostTwo(distinct: set<set<string>>) returns (a: set<string>, b: set<string>)
    requires distinct != {} && |distinct| <= 2
    ensures a in distinct && b in distinct && forall s :: s in distinct ==> s == a || s == b
  {
    a :| a in distinct;
    b := a;
    var rest := distinct - {a};
    if rest != {} {
      b :| b in rest;
      var none := rest - {b};
      assert |none| == 0;
      assert distinct == {a, b} + none;
    } else {
      assert distinct == {a};
    }
  }

  /** With at most two different rule-sets, some rule reaches half of the members. */
  lemma TwoKindsReachHalf(sets: seq<set<string>>, top: nat)
    requires sets != [] && (forall s :: s in sets ==> s != {}) && IsTop(sets, top) && |set s | s in sets| <= 2
    ensures 2 * top >= |sets|
  {
    var distinct := set s | s in sets;
    assert sets[0] in distinct;
    var a, b := AtMostTwo(distinct);
    forall k | 0 <= k < |sets| ensures sets[k] == a || sets[k] == b {
      assert sets[k] in distinct;
    }
    var x :| x in a;
    var y :| y in b;
    TwoKinds(sets, a, b);
    HasRepeats(sets, a, x);
    HasRepeats(sets, b, y);
    assert Occurs(sets, x) <= top && Occurs(sets, y) <= top;
  }

  /** The most common expected rule reaches less than the floor: such a family is refused. */
  ghost predicate PileLike(rows: seq<Row>) {
    Detected(rows) != [] && exists top: nat :: IsTop(Detected(rows), top) && BelowFloor(top, |Detected(rows)|)
  }

  /** Which families are refused, in whole numbers. */
  lemma PileLikeIff(rows: seq<Row>, top: nat)
    requires Detected(rows) != [] && IsTop(Detected(rows), top)
    ensures PileLike(rows) <==> 20000 * top < 9999 * |Detected(rows)|
  {
    BelowFloorIff(top, |Detected(rows)|);
    forall t: nat | IsTop(Detected(rows), t) ensures t == top {
    }
  }

  /** A refused family has no rule in every set, and at least three different rule-sets. */
  lemma BelowFloorIsAPile(rows: seq<Row>)
    requires PileLike(rows)
    ensures !exists x :: Shared(Detected(rows), x)
    ensures |set s | s in Detected(rows)| >= 3
  {
    var top: nat :| IsTop(Detected(rows), top) && BelowFloor(top, |Detected(rows)|);
    BelowFloorIff(top, |Detected(rows)|);
    TopIsAllIffIntersect(Detected(rows), top);
    DetectedNonEmpty(rows);
    if |set s | s in Detected(rows)| <= 2 {
      TwoKindsReachHalf(Detected(rows), top);
    }
  }

  function RowExpecting(rule: string): Row {
    map["expect" := Obj(map["must_detect" := Arr([Str(rule)])])]
  }

  lemma RuleOf(rule: string)
    ensures Rules(RowExpecting(rule)) == {rule}
  {
    assert [Str(rule)][1..] == [];
    assert Strings([Str(rule)]) == {rule} + Strings([]);
    assert Get(Get(RowExpecting(rule), "expect").fields, "must_detect") == Arr([Str(rule)]);
  }

  lemma {:induction false} DetectedConcat(a: seq<Row>, b: seq<Row>)
    ensures Detected(a + b) == Detected(a) + Detected(b)
  {
    if a == [] {
      assert a + b == b;
    } else {
      assert (a + b)[1..] == a[1..] + b;
      DetectedConcat(a[1..], b);
    }
  }

  lemma {:induction false} DetectedCopies(rule: string, n: nat)
    ensures Detected(Repeat(RowExpecting(rule), n)) == Repeat({rule}, n)
  {
    if n > 0 {
      DetectedCopies(rule, n - 1);
      assert Repeat(RowExpecting(rule), n)[1..] == Repeat(RowExpecting(rule), n - 1);
      assert Repeat({rule}, n) == [{rule}] + Repeat({rule}, n - 1);
      RuleOf(rule);
    }
  }

  lemma {:induction false} OccursConcat(a: seq<set<string>>, b: seq<set<string>>, x: string)
    ensures Occurs(a + b, x) == Occurs(a, x) + Occurs(b, x)
  {
    if a == [] {
      assert a + b == b;
    } else {
      assert (a + b)[1..] == a[1..] + b;
      OccursConcat(a[1..], b, x);
    }
  }

  lemma {:induction false} OccursInCopies(rule: string, n: nat, x: string)
    ensures Occurs(Repeat({rule}, n), x) == if x == rule then n else 0
  {
    if n > 0 {
      OccursInCopies(rule, n - 1, x);
      assert Repeat({rule}, n)[1..] == Repeat({rule}, n - 1);
    }
  }

  /** Rounding spares a family that is just under half: 5000 of 10001 members share their most common rule. */
  lemma JustUnderHalfIsSpared() returns (rows: seq<Row>, top: nat)
    ensures IsTop(Detected(rows), top) && 2 * top < |Detected(rows)| && !PileLike(rows)
  {
    var n := 5000;
    var a, b, c := Repeat(RowExpecting("a"), n), Repeat(RowExpecting("b"), n), Repeat(RowExpecting("c"), 1);
    rows, top := a + b + c, n;
    var sets := Repeat({"a"}, n) + Repeat({"b"}, n) + Repeat({"c"}, 1);
    assert Detected(rows) == sets by {
      DetectedCopies("a", n);
      DetectedCopies("b", n);
      DetectedCopies("c", 1);
      DetectedConcat(a, b);
      DetectedConcat(a + b, c);
    }
    forall x ensures Occurs(sets, x) == if x == "a" || x == "b" then n else if x == "c" then 1 else 0 {
      OccursInCopies("a", n, x);
      OccursInCopies("b", n, x);
      OccursInCopies("c", 1, x);
      OccursConcat(Repeat({"a"}, n), Repeat({"b"}, n), x);
      OccursConcat(Repeat({"a"}, n) + Repeat({"b"}, n), Repeat({"c"}, 1), x);
    }
    assert Occurs(sets, "a") == top;
    PileLikeIff(rows, top);
  }

  // ---------------------------------------------------------------- markers

  type Bytes = seq<byte>

  /** The bytes of a sample by its sha256, where this machine has them. */
  type Store = Json -> Option<Bytes>

  predicate IsAscii(marker: string) {
    forall i :: 0 <= i < |marker| ==> marker[i] as int < 128
  }

  predicate OccursAt(marker: string, data: Bytes, i: nat) {
    i + |marker| <= |data| && forall k :: 0 <= k < |marker| ==> marker[k] as int == data[i + k]
  }

  predicate OccursIn(marker: string, data: Bytes) {
    exists i :: 0 <= i <= |data| && OccursAt(marker, data, i)
  }

  predicate Carries(r: Row, marker: string, store: Store) {
    store(Sha(r)).Some? && OccursIn(marker, store(Sha(r)).value)
  }

  /** How often a marker is listed. */
  function Listed(markers: seq<string>, m: string): nat {
    if markers == [] then 0 else (if markers[0] == m then 1 else 0) + Listed(markers[1..], m)
  }

  /** How many of the rows carry it. */
  function Carriers(family: seq<Row>, m: string, store: Store): (n: nat)
    ensures n <= |family|
  {
    if family == [] then 0 else (if Carries(family[0], m, store) then 1 else 0) + Carriers(family[1..], m, store)
  }

  datatype MarkerProblem =
    | NoMarkers
    | NotAscii(marker: string)
    | NoBytes(sha: Json)
    | TooFew(marker: string, members: nat)
    | Bare(members: nat)

  lemma {:induction false} ListedSnoc(markers: seq<string>, m: string, x: string)
    ensures Listed(markers + [m], x) == Listed(markers, x) + if m == x then 1 else 0
  {
    if markers == [] {
      assert markers + [m] == [m];
    } else {
      assert (markers + [m])[1..] == markers[1..] + [m];
      ListedSnoc(markers[1..], m, x);
    }
  }

  /** What the counter holds for a marker: each row that carries it, once per listing. */
  function Tally(family: seq<Row>, markers: seq<string>, m: string, store: Store): nat {
    if family == [] then 0
    else (if Carries(family[0], m, store) then Listed(markers, m) else 0) + Tally(family[1..], markers, m, store)
  }

  lemma {:induction false} TallySnoc(family: seq<Row>, r: Row, markers: seq<string>, m: string, store: Store)
    ensures Tally(family + [r], markers, m, store)
         == Tally(family, markers, m, store) + if Carries(r, m, store) then Listed(markers, m) else 0
  {
    if family == [] {
      assert family + [r] == [r];
    } else {
      assert (family + [r])[1..] == family[1..] + [r];
      TallySnoc(family[1..], r, markers, m, store);
    }
  }

  lemma {:induction false} TallyIsProduct(family: seq<Row>, markers: seq<string>, m: string, store: Store)
    ensures Tally(family, markers, m, store) == Listed(markers, m) * Carriers(family, m, store)
  {
    if family != [] {
      TallyIsProduct(family[1..], markers, m, store);
      var a, b := Listed(markers, m), Carriers(family[1..], m, store);
      assert a * (b + 1) == a * b + a;
    }
  }

  lemma {:induction false} ListedIff(markers: seq<string>, m: string)
    ensures Listed(markers, m) > 0 <==> m in markers
  {
    if markers != [] {
      ListedIff(markers[1..], m);
      assert markers == [markers[0]] + markers[1..];
    }
  }

  function CountOf(counts: map<string, nat>, m: string): nat {
    if m in counts then counts[m] else 0
  }

  /** One member against every marker listed: each listing that occurs is counted. */
  method CountMarkers(data: Bytes, markers: seq<string>, counts: map<string, nat>) returns (after: map<string, nat>, n: nat)
    ensures forall m :: CountOf(after, m) == CountOf(counts, m) + if OccursIn(m, data) then Listed(markers, m) else 0
    ensures n > 0 <==> exists m :: m in markers && OccursIn(m, data)
  {
    after, n := counts, 0;
    for k := 0 to |markers|
      invariant forall m :: CountOf(after, m) == CountOf(counts, m) + if OccursIn(m, data) then Listed(markers[..k], m) else 0
      invariant n > 0 <==> exists m :: m in markers[..k] && OccursIn(m, data)
    {
      var marker := markers[k];
      assert markers[..k + 1] == markers[..k] + [marker];
      forall m ensures Listed(markers[..k + 1], m) == Listed(markers[..k], m) + if marker == m then 1 else 0 {
        ListedSnoc(markers[..k], marker, m);
      }
      if OccursIn(marker, data) {
        after := after[marker := CountOf(after, marker) + 1];
        n := n + 1;
      }
    }
    assert markers[..|markers|] == markers;
  }

  method FirstNotAscii(markers: seq<string>) returns (odd: Option<string>)
    ensures odd.Some? ==> odd.value in markers && !IsAscii(odd.value)
    ensures odd.None? ==> forall m :: m in markers ==> IsAscii(m)
  {
    for k := 0 to |markers|
      invariant forall i :: 0 <= i < k ==> IsAscii(markers[i])
    {
      if !IsAscii(markers[k]) {
        return Some(markers[k]);
      }
    }
    odd := None;
  }

  ghost predicate MarkersPass(family: seq<Row>, markers: seq<string>, store: Store) {
    && markers != [] && (forall m :: m in markers ==> IsAscii(m))
    && (forall r :: r in family ==> store(Sha(r)).Some?)
    && (forall m :: m in markers ==> Tally(family, markers, m, store) >= 2)
    && (forall r :: r in family ==> exists m :: m in markers && Carries(r, m, store))
  }

  /** Refusals for markers that are not in the bytes; none means the family has byte evidence. */
  method VerifyMarkers(family: seq<Row>, markers: seq<string>, store: Store) returns (problems: seq<MarkerProblem>)
    ensures problems == [] <==> MarkersPass(family, markers, store)
  {
    if markers == [] {
      return [NoMarkers];
    }
    var odd := FirstNotAscii(markers);
    if odd.Some? {
      return [NotAscii(odd.value)];
    }
    problems := [];
    var perMarker: map<string, nat>, carried: map<Json, nat> := map[], map[];
    for k := 0 to |family|
      invariant Counted(family, markers, store, k, problems == [], perMarker, carried)
    {
      var data := store(Sha(family[k]));
      if data.None? {
        MissingCounted(family, markers, store, k, problems == [], perMarker, carried);
        problems := problems + [NoBytes(Sha(family[k]))];
      } else {
        var after, n := CountMarkers(data.value, markers, perMarker);
        MemberCounted(family, markers, store, k, problems == [], perMarker, carried, after, n);
        perMarker, carried := after, carried[Sha(family[k]) := n];
      }
    }
    problems := Report(family, markers, store, problems, perMarker, carried);
  }

  /** The counters after the first `k` members. */
  ghost predicate Counted(family: seq<Row>, markers: seq<string>, store: Store, k: nat, allThere: bool,
                          perMarker: map<string, nat>, carried: map<Json, nat>)
    requires k <= |family|
  {
    && (allThere <==> forall i :: 0 <= i < k ==> store(Sha(family[i])).Some?)
    && (forall m :: CountOf(perMarker, m) == Tally(family[..k], markers, m, store))
    && (forall i :: 0 <= i < k && store(Sha(family[i])).Some? ==> Sha(family[i]) in carried)
    && (forall s :: s in carried ==> exists i :: 0 <= i < k && Sha(family[i]) == s && store(s).Some?)
    && (forall s :: s in carried ==> (carried[s] > 0 <==> exists m :: m in markers && OccursIn(m, store(s).value)))
  }

  lemma TallyNext(family: seq<Row>, markers: seq<string>, store: Store, k: nat)
    requires k < |family|
    ensures forall m :: Tally(family[..k + 1], markers, m, store)
                     == Tally(family[..k], markers, m, store) + if Carries(family[k], m, store) then Listed(markers, m) else 0
  {
    assert family[..k + 1] == family[..k] + [family[k]];
    forall m
      ensures Tally(family[..k + 1], markers, m, store)
           == Tally(family[..k], markers, m, store) + if Carries(family[k], m, store) then Listed(markers, m) else 0
    {
      TallySnoc(family[..k], family[k], markers, m, store);
    }
  }

  lemma MissingCounted(family: seq<Row>, markers: seq<string>, store: Store, k: nat, allThere: bool,
                       perMarker: map<string, nat>, carried: map<Json, nat>)
    requires k < |family| && Counted(family, markers, store, k, allThere, perMarker, carried) && store(Sha(family[k])).None?
    ensures Counted(family, markers, store, k + 1, false, perMarker, carried)
  {
    TallyNext(family, markers, store, k);
    assert !Carries(family[k], "", store);
  }

  lemma MemberCounted(family: seq<Row>, markers: seq<string>, store: Store, k: nat, allThere: bool,
                      perMarker: map<string, nat>, carried: map<Json, nat>, after: map<string, nat>, n: nat)
    requires k < |family| && Counted(family, markers, store, k, allThere, perMarker, carried) && store(Sha(family[k])).Some?
    requires var data := store(Sha(family[k])).value;
             && (forall m :: CountOf(after, m) == CountOf(perMarker, m) + if OccursIn(m, data) then Listed(markers, m) else 0)
             && (n > 0 <==> exists m :: m in markers && OccursIn(m, data))
    ensures Counted(family, markers, store, k + 1, allThere, after, carried[Sha(family[k]) := n])
  {
    TallyNext(family, markers, store, k);
  }

  method ReportFew(family: seq<Row>, markers: seq<string>, store: Store, found: seq<MarkerProblem>, perMarker: map<string, nat>)
    returns (problems: seq<MarkerProblem>)
    requires forall m :: CountOf(perMarker, m) == Tally(family, markers, m, store)
    ensures problems == [] <==> found == [] && forall m :: m in markers ==> Tally(family, markers, m, store) >= 2
  {
    problems := found;
    for k := 0 to |markers|
      invariant problems == [] <==> found == [] && forall i :: 0 <= i < k ==> Tally(family, markers, markers[i], store) >= 2
    {
      if CountOf(perMarker, markers[k]) < 2 {
        problems := problems + [TooFew(markers[k], CountOf(perMarker, markers[k]))];
      }
    }
  }

  /** No member was counted as bare exactly when every member carries some marker. */
  lemma NoneBareIff(family: seq<Row>, markers: seq<string>, store: Store, perMarker: map<string, nat>, carried: map<Json, nat>)
    requires Counted(family, markers, store, |family|, true, perMarker, carried)
    ensures (forall s :: s in carried ==> carried[s] > 0) <==> forall r :: r in family ==> exists m :: m in markers && Carries(r, m, store)
  {
    if forall s :: s in carried ==> carried[s] > 0 {
      forall r | r in family ensures exists m :: m in markers && Carries(r, m, store) {
        var i :| 0 <= i < |family| && family[i] == r;
        CarriedIff(family, markers, store, perMarker, carried, i);
      }
    }
    if forall r :: r in family ==> exists m :: m in markers && Carries(r, m, store) {
      forall s | s in carried ensures carried[s] > 0 {
        var i :| 0 <= i < |family| && Sha(family[i]) == s;
        CarriedIff(family, markers, store, perMarker, carried, i);
        assert family[i] in family;
      }
    }
  }

  lemma CarriedIff(family: seq<Row>, markers: seq<string>, store: Store, perMarker: map<string, nat>, carried: map<Json, nat>, i: nat)
    requires Counted(family, markers, store, |family|, true, perMarker, carried) && i < |family|
    ensures Sha(family[i]) in carried && (carried[Sha(family[i])] > 0 <==> exists m :: m in markers && Carries(family[i], m, store))
  {
    var s := Sha(family[i]);
    if m :| m in markers && OccursIn(m, store(s).value) {
      assert Carries(family[i], m, store);
    }
  }

  method Report(family: seq<Row>, markers: seq<string>, store: Store, found: seq<MarkerProblem>,
                perMarker: map<string, nat>, carried: map<Json, nat>) returns (problems: seq<MarkerProblem>)
    requires Counted(family, markers, store, |family|, found == [], perMarker, carried)
    ensures problems == [] <==>
            && (forall r :: r in family ==> store(Sha(r)).Some?)
            && (forall m :: m in markers ==> Tally(family, markers, m, store) >= 2)
            && (forall r :: r in family ==> exists m :: m in markers && Carries(r, m, store))
  {
    assert family[..|family|] == family;
    problems := ReportFew(family, markers, store, found, perMarker);
    var bare := set s | s in carried && carried[s] == 0;
    if found == [] {
      NoneBareIff(family, markers, store, perMarker, carried);
    }
    if bare != {} {
      problems := problems + [Bare(|bare|)];
    }
    forall s | s in carried ensures carried[s] == 0 ==> s in bare {
    }
  }

  /** What passing promises: every marker is in at least two of the rows. */
  ghost predicate EveryMarkerShared(family: seq<Row>, markers: seq<string>, store: Store) {
    forall m :: m in markers ==> Carriers(family, m, store) >= 2
  }

  /** Once passed, only a marker listed more than once can be in a single row. */
  lemma PassedMeansSharedIff(family: seq<Row>, markers: seq<string>, store: Store)
    requires MarkersPass(family, markers, store)
    ensures EveryMarkerShared(family, markers, store)
       <==> forall m :: m in markers && Listed(markers, m) > 1 ==> Carriers(family, m, store) != 1
  {
    forall m | m in markers
      ensures Carriers(family, m, store) != 0 && (Listed(markers, m) <= 1 ==> Carriers(family, m, store) >= 2)
    {
      TallyIsProduct(family, markers, m, store);
      ListedIff(markers, m);
    }
  }

  /** One member, one marker listed twice: it passes, and only one row carries the marker. */
  lemma ListedTwicePasses() returns (family: seq<Row>, markers: seq<string>, store: Store)
    ensures MarkersPass(family, markers, store) && !EveryMarkerShared(family, markers, store)
  {
    var row: Row := map[];
    family, markers, store := [row], ["x", "x"], s => Some([120]);
    assert OccursAt("x", [120], 0);
    assert Carries(row, "x", store);
    assert markers[1..] == ["x"];
    assert Listed(markers, "x") == 2 && Carriers(family, "x", store) == 1;
    assert Tally(family, markers, "x", store) == 2;
  }
}
