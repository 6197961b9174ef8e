/** Which marker lists keep the promise that every marker is in at least two members. */
module MarkerLists {
  import opened Prelude
  import opened JsonValues
  import opened FamilyEvidence

  predicate AsciiMarkers(markers: seq<string>) {
    forall m :: m in markers ==> IsAscii(m)
  }

  predicate PartAt(m: string, o: string, i: nat) {
    i + |m| <= |o| && o[i..i + |m|] == m
  }

  ghost predicate Within(m: string, o: string) {
    exists i: nat :: PartAt(m, o, i)
  }

  /** Every marker listed more than once is part of a marker listed once. */
  ghost predicate RepeatsCovered(markers: seq<string>) {
    forall m :: m in markers && Listed(markers, m) > 1 ==> exists o :: o in markers && Listed(markers, o) == 1 && Within(m, o)
  }

  /** Whatever the family and the bytes, passing the check means what it is meant to mean. */
  ghost predicate KeepsPromise(markers: seq<string>) {
    forall family: seq<Row>, store: Store :: MarkersPass(family, markers, store) ==> EveryMarkerShared(family, markers, store)
  }

  // ---------------------------------------------------------------- covered lists keep it

  lemma PartIsCarried(m: string, o: string, r: Row, store: Store)
    requires Within(m, o) && Carries(r, o, store)
    ensures Carries(r, m, store)
  {
    var data := store(Sha(r)).value;
    var i: nat :| PartAt(m, o, i);
    var j :| 0 <= j <= |data| && OccursAt(o, data, j);
    forall k | 0 <= k < |m| ensures m[k] as int == data[j + i + k] {
      assert m[k] == o[i..i + |m|][k] == o[i + k];
    }
    assert OccursAt(m, data, j + i);
  }

  lemma {:induction false} PartHasMoreCarriers(family: seq<Row>, m: string, o: string, store: Store)
    requires Within(m, o)
    ensures Carriers(family, o, store) <= Carriers(family, m, store)
  {
    if family != [] {
      PartHasMoreCarriers(family[1..], m, o, store);
      if Carries(family[0], o, store) {
        PartIsCarried(m, o, family[0], store);
      }
    }
  }

  lemma CoveredIsShared(family: seq<Row>, markers: seq<string>, store: Store)
    requires MarkersPass(family, markers, store) && RepeatsCovered(markers)
    ensures EveryMarkerShared(family, markers, store)
  {
    forall m | m in markers && Listed(markers, m) > 1 ensures Carriers(family, m, store) >= 2 {
      var o :| o in markers && Listed(markers, o) == 1 && Within(m, o);
      TallyIsProduct(family, markers, o, store);
      PartHasMoreCarriers(family, m, o, store);
    }
    PassedMeansSharedIff(family, markers, store);
  }

  // ---------------------------------------------------------------- others do not

  function BytesOf(o: string): Bytes
    requires IsAscii(o)
  {
    seq(|o|, i requires 0 <= i < |o| => o[i] as int)
  }

  /** The markers one after the other, with a byte between them that is in none. */
  function Joined(ms: seq<string>): Bytes
    requires AsciiMarkers(ms)
  {
    if ms == [] then []
    else
      assert ms[0] in ms;
      BytesOf(ms[0]) + ([255] + Joined(ms[1..]))
  }

  lemma {:induction false} JoinedHolds(ms: seq<string>, m: string)
    requires AsciiMarkers(ms) && m in ms
    ensures OccursIn(m, Joined(ms))
  {
    var rest := [255] + Joined(ms[1..]);
    if m == ms[0] {
      assert OccursAt(m, Joined(ms), 0);
    } else {
      JoinedHolds(ms[1..], m);
      var i :| 0 <= i <= |Joined(ms[1..])| && OccursAt(m, Joined(ms[1..]), i);
      var at := |ms[0]| + 1;
      assert Joined(ms)[at..] == Joined(ms[1..]);
      forall k | 0 <= k < |m| ensures m[k] as int == Joined(ms)[at + i + k] {
        assert Joined(ms)[at..][i + k] == Joined(ms)[at + i + k];
      }
      assert OccursAt(m, Joined(ms), at + i);
    }
  }

  lemma {:induction false} JoinedHoldsOnly(ms: seq<string>, m: string) returns (o: string)
    requires AsciiMarkers(ms) && IsAscii(m) && m != "" && OccursIn(m, Joined(ms))
    ensures o in ms && Within(m, o)
  {
    var i :| 0 <= i <= |Joined(ms)| && OccursAt(m, Joined(ms), i);
    assert ms != [];
    o := ms[0];
    var at := |o| + 1;
    assert Joined(ms)[|o|] == 255;
    forall l | i <= l < i + |m| ensures Joined(ms)[l] != 255 {
      assert m[l - i] as int == Joined(ms)[i + (l - i)];
    }
    if i + |m| <= |o| {
      assert PartAt(m, o, i);
    } else {
      assert i > |o|;
      assert Joined(ms)[at..] == Joined(ms[1..]);
      forall k | 0 <= k < |m| ensures m[k] as int == Joined(ms[1..])[i - at + k] {
        assert Joined(ms)[at..][i - at + k] == Joined(ms)[i + k];
      }
      assert OccursAt(m, Joined(ms[1..]), i - at);
      o := JoinedHoldsOnly(ms[1..], m);
    }
  }

  lemma JoinedHoldsNoOther(ms: seq<string>, m: string)
    requires AsciiMarkers(ms) && ms != [] && IsAscii(m) && forall o :: o in ms ==> !Within(m, o)
    ensures !OccursIn(m, Joined(ms))
  {
    assert ms[0] in ms && !PartAt(m, ms[0], 0);
    if OccursIn(m, Joined(ms)) {
      var o := JoinedHoldsOnly(ms, m);
    }
  }

  function Once(markers: seq<string>, among: seq<string>): (r: seq<string>)
    ensures forall m :: m in r <==> m in among && Listed(markers, m) == 1
  {
    if among == [] then []
    else (if Listed(markers, among[0]) == 1 then [among[0]] else []) + Once(markers, among[1..])
  }

  /** Two members: one with every marker in its bytes, one with those listed once. Without such markers, the first alone. */
  lemma UncoveredFails(markers: seq<string>, m: string) returns (family: seq<Row>, store: Store)
    requires AsciiMarkers(markers) && m in markers && Listed(markers, m) > 1
    requires forall o :: o in markers && Listed(markers, o) == 1 ==> !Within(m, o)
    ensures MarkersPass(family, markers, store) && !EveryMarkerShared(family, markers, store)
  {
    var once := Once(markers, markers);
    var all, some := Joined(markers), Joined(once);
    var first: Row, second: Row := map["sha256" := Str("1")], map["sha256" := Str("2")];
    store := s => if s == Str("2") then Some(some) else Some(all);
    family := if once == [] then [first] else [first, second];
    assert store(Sha(first)) == Some(all) && store(Sha(second)) == Some(some);
    forall x | x in markers ensures Carries(first, x, store) {
      JoinedHolds(markers, x);
    }
    forall x | x in once ensures Carries(second, x, store) {
      JoinedHolds(once, x);
    }
    forall x | x in markers ensures Tally(family, markers, x, store) >= 2 {
      CarriersOfBoth(once, first, second, x, store);
      TallyIsProduct(family, markers, x, store);
      ListedIff(markers, x);
    }
    if once != [] {
      JoinedHoldsNoOther(once, m);
    }
    CarriersOfBoth(once, first, second, m, store);
    assert first in family && once != [] ==> once[0] in once;
  }

  lemma CarriersOfBoth(once: seq<string>, first: Row, second: Row, m: string, store: Store)
    requires Carries(first, m, store)
    ensures Carriers(if once == [] then [first] else [first, second], m, store)
         == if once != [] && Carries(second, m, store) then 2 else 1
  {
    assert [first, second][1..] == [second];
    assert Carriers([], m, store) == 0 && [second][1..] == [] && [first][1..] == [];
  }

  /** A list of ASCII markers keeps the promise exactly when its repeated markers are parts of ones it lists once. */
  lemma KeepsPromiseIff(markers: seq<string>)
    requires AsciiMarkers(markers)
    ensures KeepsPromise(markers) <==> RepeatsCovered(markers)
  {
    if RepeatsCovered(markers) {
      forall family: seq<Row>, store: Store | MarkersPass(family, markers, store) ensures EveryMarkerShared(family, markers, store) {
        CoveredIsShared(family, markers, store);
      }
    } else {
      var m :| m in markers && Listed(markers, m) > 1 && forall o :: o in markers && Listed(markers, o) == 1 ==> !Within(m, o);
      var family, store := UncoveredFails(markers, m);
    }
  }
}
