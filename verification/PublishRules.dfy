/** Which rows are published, read off the keys of the rows. */
module PublishRules {
  import opened JsonValues
  import opened Prelude
  import opened PublishMove
  import R = FamilyRules

  /** The last row with that sha256. */
  ghost predicate IsLast(rows: seq<Fields>, sha: string, k: int) {
    0 <= k < |rows| && HasString(rows[k], "sha256", sha) && forall j :: k < j < |rows| ==> !HasString(rows[j], "sha256", sha)
  }

  ghost predicate IsIn(rows: seq<Fields>, sha: string) {
    exists k :: 0 <= k < |rows| && HasString(rows[k], "sha256", sha)
  }

  ghost predicate HasTag(r: Fields, tag: string) {
    && "sensitivity" in r
    && match r["sensitivity"]
       case Arr(items) => Str(tag) in items
       case Obj(fields) => tag in fields
       case _ => false
  }

  ghost predicate IsHeld(r: Fields) {
    "local_only" in r && r["local_only"] !in {Null, Bool(false), Int(0), Str(""), Arr([]), Obj(map[])}
  }

  /** The row without its origin, and everything else as it is. */
  ghost predicate IsStripped(r: Fields, out: Fields) {
    (forall k :: k in out <==> k in r && k != "origin") && forall k :: k in out ==> out[k] == r[k]
  }

  /** Why a row of the local half stays there: the first of these that holds. */
  ghost predicate IsWhy(asked: Asked, sha: string, r: Fields, published: seq<Fields>, why: Option<Refusal>) {
    if IsIn(published, sha) then why == Some(AlreadyPublished)
    else if HasString(r, "verdict", "unreviewed") then why == Some(Unreviewed)
    else if IsHeld(r) then why == Some(Held(r["local_only"]))
    else if HasTag(r, "pii") || HasTag(r, "content") then
      why.Some? && why.value.NeverPublished? && forall t :: t in why.value.tags <==> (t == "pii" || t == "content") && HasTag(r, t)
    else if !asked.evaluate(r) then why == Some(NotPublishable)
    else if exists out :: IsStripped(r, out) && !asked.inForm(out) then why == Some(BadForm)
    else if asked.stage.Some? && sha !in asked.stage.value then why == Some(NotStaged)
    else why == None
  }

  lemma {:induction false} LastAt(rows: seq<Fields>, sha: string) returns (k: int)
    ensures LastWith(rows, sha).Some? ==> IsLast(rows, sha, k) && LastWith(rows, sha) == Some(rows[k])
    ensures LastWith(rows, sha).None? ==> forall j :: 0 <= j < |rows| ==> !HasString(rows[j], "sha256", sha)
  {
    k := |rows| - 1;
    if rows != [] && F.Sha(rows[k]) != Str(sha) {
      var front := rows[..k];
      assert forall j :: 0 <= j < |front| ==> front[j] == rows[j];
      k := LastAt(front, sha);
    }
  }

  lemma LastIs(rows: seq<Fields>, sha: string)
    ensures LastWith(rows, sha) == None <==> !IsIn(rows, sha)
    ensures forall k :: IsLast(rows, sha, k) ==> LastWith(rows, sha) == Some(rows[k])
  {
    var last := LastAt(rows, sha);
    if LastWith(rows, sha).Some? {
      forall k | IsLast(rows, sha, k) ensures k == last {
      }
    }
  }

  lemma ShasIff(rows: seq<Fields>, sha: string)
    ensures Str(sha) in Shas(rows) <==> IsIn(rows, sha)
  {
    if k :| 0 <= k < |rows| && HasString(rows[k], "sha256", sha) {
      assert rows[k] in rows && F.Sha(rows[k]) == Str(sha);
    }
    if r :| r in rows && F.Sha(r) == Str(sha) {
      var k :| 0 <= k < |rows| && rows[k] == r;
    }
  }

  lemma TagIff(r: Fields, tag: string)
    ensures tag in SensitivityOf(r) <==> HasTag(r, tag)
  {
    if Get(r, "sensitivity").Arr? {
      R.StringsIff(Get(r, "sensitivity").items, tag);
    }
  }

  lemma StrippedIs(r: Fields, out: Fields)
    ensures IsStripped(r, out) <==> out == Stripped(r)
  {
    if IsStripped(r, out) {
      assert out.Keys == Stripped(r).Keys;
    }
  }

  /** A row asked for is refused for the first reason that holds, and moves if none does. */
  lemma WhyNotIs(asked: Asked, sha: string, local: seq<Fields>, published: seq<Fields>, k: nat)
    ensures !IsIn(local, sha) ==> WhyNot(asked, sha, local, published) == Some(NotLocal(IsIn(published, sha)))
    ensures IsLast(local, sha, k) ==> IsWhy(asked, sha, local[k], published, WhyNot(asked, sha, local, published))
  {
    LastIs(local, sha);
    ShasIff(published, sha);
    if IsLast(local, sha, k) {
      RefusedRow(asked, sha, local, published, local[k]);
    }
  }

  lemma RefusedRow(asked: Asked, sha: string, local: seq<Fields>, published: seq<Fields>, r: Fields)
    requires LastWith(local, sha) == Some(r)
    ensures IsWhy(asked, sha, r, published, WhyNot(asked, sha, local, published))
  {
    ShasIff(published, sha);
    TruthyIff(Get(r, "local_only"));
    forall t ensures t in SensitivityOf(r) * NEVER <==> (t == "pii" || t == "content") && HasTag(r, t) {
      TagIff(r, t);
    }
    assert SensitivityOf(r) * NEVER != {} <==> HasTag(r, "pii") || HasTag(r, "content") by {
      if SensitivityOf(r) * NEVER != {} {
        var t :| t in SensitivityOf(r) * NEVER;
      }
      assert "pii" in SensitivityOf(r) * NEVER <==> HasTag(r, "pii");
      assert "content" in SensitivityOf(r) * NEVER <==> HasTag(r, "content");
    }
    forall out ensures IsStripped(r, out) <==> out == Stripped(r) {
      StrippedIs(r, out);
    }
  }
}
