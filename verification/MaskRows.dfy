/**
  * A whole index row masked: every string of it, keys included, at every depth; refused
  * where two keys of one object would become one.
  */
module MaskRows {
  import opened Prelude
  import opened JsonValues

  /** `g` is the row masker's function on strings. */
  function MaskRow(g: string -> string, j: Json): Option<Json>
    decreases j
  {
    match j
    case Str(s) => Some(Str(g(s)))
    case Arr(items) =>
      if exists i :: 0 <= i < |items| && MaskRow(g, items[i]).None? then None
      else Some(Arr(seq(|items|, i requires 0 <= i < |items| => MaskRow(g, items[i]).value)))
    case Obj(fields) =>
      if KeysMeet(g, fields) || exists k :: k in fields && MaskRow(g, fields[k]).None? then None
      else Some(Obj(Rekeyed(g, map k | k in fields :: MaskRow(g, fields[k]).value)))
    case _ => Some(j)
  }

  /** The same values, each under its masked key; no two keys meet, so none replaces another. */
  function Rekeyed(g: string -> string, fields: Fields): (r: Fields)
    requires !KeysMeet(g, fields)
    ensures forall k :: k in fields ==> g(k) in r && r[g(k)] == fields[k]
    ensures forall l :: l in r ==> exists k :: k in fields && g(k) == l
  {
    map k | k in fields :: g(k) := fields[k]
  }

  predicate KeysMeet(g: string -> string, fields: Fields) {
    exists k, l :: k in fields && l in fields && k != l && g(k) == g(l)
  }

  /** Every string in a value: its own, its keys, and those of everything in it. */
  function StringsIn(j: Json): set<string>
    decreases j
  {
    match j
    case Str(s) => {s}
    case Arr(items) => set i, s | 0 <= i < |items| && s in StringsIn(items[i]) :: s
    case Obj(fields) => fields.Keys + set k, s | k in fields && s in StringsIn(fields[k]) :: s
    case _ => {}
  }

  function Image(g: string -> string, strings: set<string>): set<string> {
    set s | s in strings :: g(s)
  }

  /** The strings of a masked row are the masked strings of the row: none is missed, wherever it stands. */
  lemma {:induction false} EveryStringMasked(g: string -> string, j: Json)
    requires MaskRow(g, j).Some?
    ensures StringsIn(MaskRow(g, j).value) == Image(g, StringsIn(j))
    decreases j
  {
    match j {
      case Str(s) =>
      case Arr(items) =>
        EveryItemMasked(g, items);
      case Obj(fields) =>
        EveryFieldMasked(g, fields);
      case _ =>
    }
  }

  lemma {:induction false} EveryItemMasked(g: string -> string, items: seq<Json>)
    requires MaskRow(g, Arr(items)).Some?
    ensures StringsIn(MaskRow(g, Arr(items)).value) == Image(g, StringsIn(Arr(items)))
    decreases Arr(items), 0
  {
    var out := MaskRow(g, Arr(items)).value.items;
    forall i | 0 <= i < |items| ensures StringsIn(out[i]) == Image(g, StringsIn(items[i])) {
      EveryStringMasked(g, items[i]);
    }
    forall t ensures t in StringsIn(Arr(out)) <==> t in Image(g, StringsIn(Arr(items))) {
      if t in StringsIn(Arr(out)) {
        var i :| 0 <= i < |items| && t in StringsIn(out[i]);
        var s :| s in StringsIn(items[i]) && g(s) == t;
      }
      if t in Image(g, StringsIn(Arr(items))) {
        var s :| s in StringsIn(Arr(items)) && g(s) == t;
        var i :| 0 <= i < |items| && s in StringsIn(items[i]);
        assert t in StringsIn(out[i]);
      }
    }
  }

  /** The value masked under one key stands under the masked key. */
  lemma FieldAt(g: string -> string, fields: Fields, k: string)
    requires MaskRow(g, Obj(fields)).Some? && k in fields
    ensures var out := MaskRow(g, Obj(fields)).value.fields;
            MaskRow(g, fields[k]).Some? && g(k) in out && out[g(k)] == MaskRow(g, fields[k]).value
  {
    var values := map l | l in fields :: MaskRow(g, fields[l]).value;
    assert MaskRow(g, Obj(fields)).value.fields == Rekeyed(g, values);
  }

  lemma {:induction false} EveryFieldMasked(g: string -> string, fields: Fields)
    requires MaskRow(g, Obj(fields)).Some?
    ensures StringsIn(MaskRow(g, Obj(fields)).value) == Image(g, StringsIn(Obj(fields)))
    decreases Obj(fields), 0
  {
    var out := MaskRow(g, Obj(fields)).value.fields;
    forall k | k in fields ensures g(k) in out && StringsIn(out[g(k)]) == Image(g, StringsIn(fields[k])) {
      FieldAt(g, fields, k);
      EveryStringMasked(g, fields[k]);
    }
    forall l | l in out ensures exists k :: k in fields && g(k) == l {
      KeyOf(g, fields, l);
    }
    StringsOfFields(g, fields, out);
  }

  /** Every key of the masked object is a masked key. */
  lemma KeyOf(g: string -> string, fields: Fields, l: string)
    requires MaskRow(g, Obj(fields)).Some? && l in MaskRow(g, Obj(fields)).value.fields
    ensures exists k :: k in fields && g(k) == l
  {
    var values := map k | k in fields :: MaskRow(g, fields[k]).value;
    assert MaskRow(g, Obj(fields)).value.fields == Rekeyed(g, values);
  }

  lemma StringsOfFields(g: string -> string, fields: Fields, out: Fields)
    requires forall k :: k in fields ==> g(k) in out && StringsIn(out[g(k)]) == Image(g, StringsIn(fields[k]))
    requires forall l :: l in out ==> exists k :: k in fields && g(k) == l
    ensures StringsIn(Obj(out)) == Image(g, StringsIn(Obj(fields)))
  {
    forall t | t in StringsIn(Obj(out)) ensures t in Image(g, StringsIn(Obj(fields))) {
      if t !in out {
        var l :| l in out && t in StringsIn(out[l]);
        var k :| k in fields && g(k) == l;
        var s :| s in StringsIn(fields[k]) && g(s) == t;
        assert s in StringsIn(Obj(fields));
      }
    }
    forall t | t in Image(g, StringsIn(Obj(fields))) ensures t in StringsIn(Obj(out)) {
      var s :| s in StringsIn(Obj(fields)) && g(s) == t;
      if s !in fields {
        var k :| k in fields && s in StringsIn(fields[k]);
        assert t in StringsIn(out[g(k)]);
      }
    }
  }

  /** No field is lost: an object keeps its number of keys. */
  lemma NoFieldLost(g: string -> string, fields: Fields)
    requires MaskRow(g, Obj(fields)).Some?
    ensures |MaskRow(g, Obj(fields)).value.fields| == |fields|
  {
    var out := MaskRow(g, Obj(fields)).value.fields;
    SameNumber(g, fields.Keys);
    assert out.Keys == Image(g, fields.Keys);
  }

  lemma {:induction false} SameNumber(g: string -> string, s: set<string>)
    requires forall k, l :: k in s && l in s && g(k) == g(l) ==> k == l
    ensures |Image(g, s)| == |s|
    decreases s
  {
    if s != {} {
      var k :| k in s;
      SameNumber(g, s - {k});
      assert Image(g, s) == Image(g, s - {k}) + {g(k)};
      assert g(k) !in Image(g, s - {k});
    }
  }

  // ---------------------------------------------------------------- the shape of a row

  datatype Part = Item(i: nat) | Field(k: string)

  /** The value some items and fields down. */
  function Within(j: Json, path: seq<Part>): Option<Json>
    decreases |path|
  {
    if path == [] then Some(j)
    else
      match path[0]
      case Item(i) => if j.Arr? && i < |j.items| then Within(j.items[i], path[1..]) else None
      case Field(k) => if j.Obj? && k in j.fields then Within(j.fields[k], path[1..]) else None
  }

  function MaskedPart(g: string -> string, part: Part): Part {
    match part
    case Item(i) => Item(i)
    case Field(k) => Field(g(k))
  }

  function MaskedPath(g: string -> string, path: seq<Part>): (p: seq<Part>)
    ensures |p| == |path|
  {
    seq(|path|, n requires 0 <= n < |path| => MaskedPart(g, path[n]))
  }

  /** Every value of a row stands masked where it stood, under masked keys, as long or as large. */
  lemma {:induction false} ValueAt(g: string -> string, j: Json, path: seq<Part>)
    requires MaskRow(g, j).Some? && Within(j, path).Some?
    ensures Within(MaskRow(g, j).value, MaskedPath(g, path)).Some?
    ensures match (Within(j, path).value, Within(MaskRow(g, j).value, MaskedPath(g, path)).value)
            case (Str(s), w) => w == Str(g(s))
            case (Arr(items), w) => w.Arr? && |w.items| == |items|
            case (Obj(fields), w) => w.Obj? && |w.fields| == |fields|
            case (v, w) => w == v
    decreases |path|
  {
    if path == [] {
      if j.Obj? {
        NoFieldLost(g, j.fields);
      }
    } else {
      assert MaskedPath(g, path)[1..] == MaskedPath(g, path[1..]);
      match path[0]
      case Item(i) =>
        ValueAt(g, j.items[i], path[1..]);
      case Field(k) =>
        FieldAt(g, j.fields, k);
        ValueAt(g, j.fields[k], path[1..]);
    }
  }

  // ---------------------------------------------------------------- refused rows

  /** The object some items and fields down has two keys that are masked to one. */
  ghost predicate MergesAt(g: string -> string, j: Json, path: seq<Part>) {
    var o := Within(j, path);
    o.Some? && o.value.Obj? && exists k, l :: k in o.value.fields && l in o.value.fields && k != l && g(k) == g(l)
  }

  /** A row is refused exactly where masking would merge two fields of some object in it. */
  lemma {:induction false} RefusedIffMerges(g: string -> string, j: Json)
    ensures MaskRow(g, j).None? <==> exists path :: MergesAt(g, j, path)
    decreases j
  {
    MergesSomewhere(g, j);
    match j
    case Arr(items) =>
      forall i | 0 <= i < |items| ensures MaskRow(g, items[i]).None? <==> MergesBelow(g, j, Item(i)) {
        RefusedIffMerges(g, items[i]);
        MergesInPart(g, j, Item(i), items[i]);
      }
      ItemsMerge(g, items);
    case Obj(fields) =>
      forall k | k in fields ensures MaskRow(g, fields[k]).None? <==> MergesBelow(g, j, Field(k)) {
        RefusedIffMerges(g, fields[k]);
        MergesInPart(g, j, Field(k), fields[k]);
      }
      FieldsMerge(g, fields);
    case _ =>
      Atomic(j);
  }

  lemma Atomic(j: Json)
    requires !j.Arr? && !j.Obj?
    ensures forall part :: Within(j, [part]).None?
  {
  }

  lemma ItemsMerge(g: string -> string, items: seq<Json>)
    requires forall i :: 0 <= i < |items| ==> (MaskRow(g, items[i]).None? <==> MergesBelow(g, Arr(items), Item(i)))
    ensures MaskRow(g, Arr(items)).None? <==> exists part :: Within(Arr(items), [part]).Some? && MergesBelow(g, Arr(items), part)
  {
    if part :| Within(Arr(items), [part]).Some? && MergesBelow(g, Arr(items), part) {
      assert MaskRow(g, items[part.i]).None?;
    }
    if i :| 0 <= i < |items| && MaskRow(g, items[i]).None? {
      PartOf(Arr(items), Item(i));
    }
  }

  lemma FieldsMerge(g: string -> string, fields: Fields)
    requires forall k :: k in fields ==> (MaskRow(g, fields[k]).None? <==> MergesBelow(g, Obj(fields), Field(k)))
    ensures MaskRow(g, Obj(fields)).None?
            <==> KeysMeet(g, fields) || exists part :: Within(Obj(fields), [part]).Some? && MergesBelow(g, Obj(fields), part)
  {
    if part :| Within(Obj(fields), [part]).Some? && MergesBelow(g, Obj(fields), part) {
      assert MaskRow(g, fields[part.k]).None?;
    }
    if k :| k in fields && MaskRow(g, fields[k]).None? {
      PartOf(Obj(fields), Field(k));
    }
  }

  lemma PartOf(j: Json, part: Part)
    ensures Within(j, [part]).Some? <==>
            (j.Arr? && part.Item? && part.i < |j.items|) || (j.Obj? && part.Field? && part.k in j.fields)
  {
    assert [part][1..] == [];
  }

  ghost predicate MergesBelow(g: string -> string, j: Json, part: Part) {
    exists path :: MergesAt(g, j, [part] + path)
  }

  lemma MergesInPart(g: string -> string, j: Json, part: Part, v: Json)
    requires Within(j, [part]) == Some(v)
    ensures MergesBelow(g, j, part) <==> exists path :: MergesAt(g, v, path)
  {
    forall path ensures Within(j, [part] + path) == Within(v, path) {
      assert ([part] + path)[1..] == path && [part][1..] == [];
    }
    if path :| MergesAt(g, v, path) {
      assert MergesAt(g, j, [part] + path);
    }
    if path :| MergesAt(g, j, [part] + path) {
      assert MergesAt(g, v, path);
    }
  }

  /** Two keys meet in the value itself, or in one of its items or fields. */
  lemma MergesSomewhere(g: string -> string, j: Json)
    ensures (exists path :: MergesAt(g, j, path))
            <==> (j.Obj? && KeysMeet(g, j.fields)) || exists part :: Within(j, [part]).Some? && MergesBelow(g, j, part)
  {
    if path :| MergesAt(g, j, path) && path != [] {
      assert path == [path[0]] + path[1..];
      assert MergesBelow(g, j, path[0]);
    }
    if j.Obj? && KeysMeet(g, j.fields) {
      assert MergesAt(g, j, []);
    }
  }
}
