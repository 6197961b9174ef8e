/** What splicing into nested base64 keeps, for every file and every text masker. */
module EncodedLayersProofs {
  import opened Prelude
  import opened Base64
  import opened Base64Runs
  import opened EncodedLayers

  // ---------------------------------------------------------------- placement

  lemma SliceAt<T>(s: seq<T>, a: nat, b: nat, i: nat)
    requires a <= i < b <= |s|
    ensures s[a..b][i - a] == s[i]
  {
  }

  lemma SliceMiddle<T>(left: seq<T>, mid: seq<T>, right: seq<T>)
    ensures (left + mid + right)[|left|..|left| + |mid|] == mid
  {
  }

  lemma AssembleUnfold(data: seq<byte>, runs: seq<Run>, parts: seq<Masked>, pos: nat)
    requires Ordered(runs, pos, |data|) && Fits(runs, parts) && runs != []
    ensures pos <= runs[0].start < runs[0].end <= |data| && Ordered(runs[1..], runs[0].end, |data|)
    ensures Assemble(data, runs, parts, pos).bytes
         == data[pos..runs[0].start] + parts[0].bytes + Assemble(data, runs[1..], parts[1..], runs[0].end).bytes
    ensures forall j :: 1 <= j < |runs| ==> runs[0].end <= runs[j].start
  {
    OrderedAt(runs, pos, |data|, 0);
    forall j | 1 <= j < |runs| ensures runs[0].end <= runs[j].start {
      OrderedAt(runs[1..], runs[0].end, |data|, j - 1);
    }
  }

  /** The bytes of run `k` in an assembled file are that run's part. */
  lemma {:induction false} AssembledRun(data: seq<byte>, runs: seq<Run>, parts: seq<Masked>, pos: nat, k: nat)
    requires Ordered(runs, pos, |data|) && Fits(runs, parts) && k < |runs|
    ensures pos <= runs[k].start < runs[k].end <= |data|
    ensures Assemble(data, runs, parts, pos).bytes[runs[k].start - pos..runs[k].end - pos] == parts[k].bytes
    decreases k
  {
    OrderedAt(runs, pos, |data|, k);
    AssembleUnfold(data, runs, parts, pos);
    var end := runs[0].end;
    var left, rest := data[pos..runs[0].start] + parts[0].bytes, Assemble(data, runs[1..], parts[1..], end).bytes;
    if k == 0 {
      SliceMiddle(data[pos..runs[0].start], parts[0].bytes, rest);
    } else {
      AssembledRun(data, runs[1..], parts[1..], end, k - 1);
      assert |left| == end - pos <= runs[k].start - pos;
    }
  }

  ghost predicate InRun(runs: seq<Run>, i: nat) {
    exists k :: 0 <= k < |runs| && runs[k].start <= i < runs[k].end
  }

  lemma {:induction false} AssembledGap(data: seq<byte>, runs: seq<Run>, parts: seq<Masked>, pos: nat, i: nat)
    requires Ordered(runs, pos, |data|) && Fits(runs, parts)
    requires pos <= i < |data| && !InRun(runs, i)
    ensures Assemble(data, runs, parts, pos).bytes[i - pos] == data[i]
    decreases |runs|
  {
    if runs != [] && i >= runs[0].start {
      OrderedAt(runs, pos, |data|, 0);
      assert i >= runs[0].end;
      forall k | 0 <= k < |runs[1..]| ensures !(runs[1..][k].start <= i < runs[1..][k].end) {
        assert runs[1..][k] == runs[k + 1];
      }
      AssembledGap(data, runs[1..], parts[1..], runs[0].end, i);
      var rest := Assemble(data, runs[1..], parts[1..], runs[0].end);
      var left := data[pos..runs[0].start] + parts[0].bytes;
      assert (left + rest.bytes)[i - pos] == rest.bytes[i - runs[0].end];
    }
  }

  /** Nothing outside a run moves or changes. */
  lemma OutsideRunsUnchanged(f: MaskText, data: seq<byte>, depth: nat, maxDepth: nat, i: nat)
    requires i < |data| && !InRun(Runs(data), i)
    ensures MaskLayers(f, data, depth, maxDepth).bytes[i] == data[i]
  {
    if depth < maxDepth {
      AssembledGap(data, Runs(data), MaskedRuns(f, data, Runs(data), depth, maxDepth), 0, i);
    }
  }

  /** Every run holds exactly what masking that run alone gives. */
  lemma RunHoldsItsOwnMasking(f: MaskText, data: seq<byte>, depth: nat, maxDepth: nat, k: nat)
    requires depth < maxDepth && k < |Runs(data)|
    ensures var r := Runs(data)[k];
            && r.start < r.end <= |data|
            && MaskLayers(f, data, depth, maxDepth).bytes[r.start..r.end]
               == MaskRegion(f, data[r.start..r.end], depth, maxDepth).bytes
  {
    AssembledRun(data, Runs(data), MaskedRuns(f, data, Runs(data), depth, maxDepth), 0, k);
  }

  // ---------------------------------------------------------------- one region

  /** The conditions under which a region is rewritten. */
  ghost predicate Rewrites(f: MaskText, region: seq<byte>, depth: nat, maxDepth: nat)
    requires depth < maxDepth
  {
    && Accepted(region)
    && var d := Decode(region + Missing(|region|)).value;
    && f(d).Some?
    && var inner := MaskLayers(f, f(d).value, depth + 1, maxDepth).bytes;
    && |inner| == |d| && inner != d
  }

  /** What an encoding looks like over a region that was accepted. */
  function Reencoded(region: seq<byte>, inner: seq<byte>): seq<byte> {
    if |region| % 4 == 0 then Encode(inner) else StripPads(Encode(inner))
  }

  /** Re-encoding an equally long layer gives an equally shaped region. */
  lemma ReencodedShape(region: seq<byte>, inner: seq<byte>)
    requires Accepted(region)
    requires |inner| == |Decode(region + Missing(|region|)).value|
    ensures SameShape(region, Reencoded(region, inner))
    ensures Reencoded(region, inner) + Missing(|region|) == Encode(inner)
  {
    var d := Decode(region + Missing(|region|)).value;
    AcceptedIsEncoding(region);
    EncodeShape(d);
    EncodeShape(inner);
    if |region| % 4 == 0 {
      assert Encode(inner) + Missing(|region|) == Encode(inner);
    } else {
      StripPadsOfEncode(d);
      StripPadsOfEncode(inner);
    }
  }

  /**
    * A region is rewritten exactly under those conditions, and then it is the
    * encoding of the recursively masked layer. So the refusal for a re-encoding
    * of another length can never be reached.
    */
  lemma RegionRewritten(f: MaskText, region: seq<byte>, depth: nat, maxDepth: nat)
    requires depth < maxDepth
    ensures var m := MaskRegion(f, region, depth, maxDepth).bytes;
            if Rewrites(f, region, depth, maxDepth) then
              m == Reencoded(region, MaskLayers(f, f(Decode(region + Missing(|region|)).value).value, depth + 1, maxDepth).bytes)
            else m == region
    ensures Accepted(region) && f(Decode(region + Missing(|region|)).value).Some? ==>
              var d := Decode(region + Missing(|region|)).value;
              var inner := MaskLayers(f, f(d).value, depth + 1, maxDepth);
              MaskRegion(f, region, depth, maxDepth).log == inner.log +
                (if inner.bytes == d then [] else if |inner.bytes| != |d| then [RefusedLengthChange(depth)]
                 else [MaskedRegion(depth, |d|)])
  {
    if Accepted(region) {
      var d := Decode(region + Missing(|region|)).value;
      AcceptedIsEncoding(region);
      if f(d).Some? {
        var inner := MaskLayers(f, f(d).value, depth + 1, maxDepth);
        if |inner.bytes| == |d| {
          ReencodedShape(region, inner.bytes);
        }
      }
    }
  }

  /** A rewritten region decodes to its own bytes, masked, with the deeper layers masked too. */
  lemma RewrittenRegionDecodes(f: MaskText, region: seq<byte>, depth: nat, maxDepth: nat)
    requires depth < maxDepth
    requires MaskRegion(f, region, depth, maxDepth).bytes != region
    ensures Canonical(region)
    ensures f(Decode(region + Missing(|region|)).value).Some?
    ensures var layer := MaskLayers(f, f(Decode(region + Missing(|region|)).value).value, depth + 1, maxDepth).bytes;
            Decode(MaskRegion(f, region, depth, maxDepth).bytes + Missing(|region|)) == Some(layer)
  {
    RegionRewritten(f, region, depth, maxDepth);
    AcceptedIffCanonical(region);
    var layer := MaskLayers(f, f(Decode(region + Missing(|region|)).value).value, depth + 1, maxDepth).bytes;
    ReencodedShape(region, layer);
    DecodeOfEncode(layer);
  }

  /** Only characters over a three-byte group that changed are different. */
  lemma RewrittenCharacterHasChangedGroup(f: MaskText, region: seq<byte>, depth: nat, maxDepth: nat, j: nat)
    requires depth < maxDepth && j < |region|
    requires MaskRegion(f, region, depth, maxDepth).bytes[j] != region[j]
    ensures Rewrites(f, region, depth, maxDepth)
    ensures var d := Decode(region + Missing(|region|)).value;
            var layer := MaskLayers(f, f(d).value, depth + 1, maxDepth).bytes;
            3 * (j / 4) < |d| && Group(d, j / 4) != Group(layer, j / 4)
  {
    RegionRewritten(f, region, depth, maxDepth);
    var d := Decode(region + Missing(|region|)).value;
    var layer := MaskLayers(f, f(d).value, depth + 1, maxDepth).bytes;
    AcceptedIsEncoding(region);
    ReencodedShape(region, layer);
    var m := MaskRegion(f, region, depth, maxDepth).bytes;
    assert Encode(d)[j] == region[j];
    assert Encode(layer)[j] == (m + Missing(|region|))[j] == m[j];
    SpliceIsLocal(d, layer, j);
  }

  // ---------------------------------------------------------------- the whole file

  lemma RegionKeepsShape(f: MaskText, region: seq<byte>, depth: nat, maxDepth: nat)
    requires depth < maxDepth
    ensures SameShape(region, MaskRegion(f, region, depth, maxDepth).bytes)
  {
    RegionRewritten(f, region, depth, maxDepth);
    if Rewrites(f, region, depth, maxDepth) {
      var d := Decode(region + Missing(|region|)).value;
      ReencodedShape(region, MaskLayers(f, f(d).value, depth + 1, maxDepth).bytes);
    }
  }

  /** A byte of the result: the masked run's if a run covers it, the file's own otherwise. */
  lemma ByteOfResult(f: MaskText, data: seq<byte>, depth: nat, maxDepth: nat, i: nat) returns (start: nat, end: nat)
    requires depth < maxDepth && i < |data|
    ensures start <= i < end <= |data|
    ensures MaskLayers(f, data, depth, maxDepth).bytes[i] == data[i]
         || MaskLayers(f, data, depth, maxDepth).bytes[i] == MaskRegion(f, data[start..end], depth, maxDepth).bytes[i - start]
  {
    var runs := Runs(data);
    if k :| 0 <= k < |runs| && runs[k].start <= i < runs[k].end {
      RunHoldsItsOwnMasking(f, data, depth, maxDepth, k);
      start, end := runs[k].start, runs[k].end;
      SliceAt(MaskLayers(f, data, depth, maxDepth).bytes, start, end, i);
    } else {
      OutsideRunsUnchanged(f, data, depth, maxDepth, i);
      start, end := i, i + 1;
    }
  }

  lemma ByteKeepsShape(f: MaskText, data: seq<byte>, depth: nat, maxDepth: nat, i: nat)
    requires i < |data|
    ensures var b := MaskLayers(f, data, depth, maxDepth).bytes[i];
            (IsAlphabet(data[i]) <==> IsAlphabet(b)) && (data[i] == PAD <==> b == PAD)
  {
    if depth < maxDepth {
      var start, end := ByteOfResult(f, data, depth, maxDepth, i);
      RegionKeepsShape(f, data[start..end], depth, maxDepth);
      assert data[i] == data[start..end][i - start];
    }
  }

  lemma FileKeepsShape(f: MaskText, data: seq<byte>, depth: nat, maxDepth: nat)
    ensures SameShape(data, MaskLayers(f, data, depth, maxDepth).bytes)
  {
    var out := MaskLayers(f, data, depth, maxDepth).bytes;
    forall i | 0 <= i < |data|
      ensures (IsAlphabet(data[i]) <==> IsAlphabet(out[i])) && (data[i] == PAD <==> out[i] == PAD)
    {
      ByteKeepsShape(f, data, depth, maxDepth, i);
    }
  }

  /** After masking, the file has the runs it had before, at the places it had them. */
  lemma RunsAreStable(f: MaskText, data: seq<byte>, depth: nat, maxDepth: nat)
    ensures Runs(MaskLayers(f, data, depth, maxDepth).bytes) == Runs(data)
  {
    FileKeepsShape(f, data, depth, maxDepth);
    SameShapeSameRuns(data, MaskLayers(f, data, depth, maxDepth).bytes, 0);
  }

  // ---------------------------------------------------------------- a layer that stands by itself

  lemma EncodingIsAccepted(d: seq<byte>)
    requires d != []
    ensures Accepted(Encode(d)) && Decode(Encode(d) + Missing(|Encode(d)|)) == Some(d) && |Encode(d)| % 4 == 0
  {
    EncodeNeedsNoPads(d);
    DecodeOfEncode(d);
  }

  lemma LayerAlone(f: MaskText, d: seq<byte>, depth: nat, maxDepth: nat)
    requires depth < maxDepth && d != [] && f(d).Some?
    ensures var inner, m := MaskLayers(f, f(d).value, depth + 1, maxDepth).bytes, MaskRegion(f, Encode(d), depth, maxDepth);
            && m.bytes == (if |inner| == |d| then Encode(inner) else Encode(d))
            && (|inner| == |d| && inner != d ==> MaskedRegion(depth, |d|) in m.log)
            && (|inner| != |d| ==> RefusedLengthChange(depth) in m.log)
  {
    EncodingIsAccepted(d);
    RegionRewritten(f, Encode(d), depth, maxDepth);
  }

  /**
    * A layer in plain sight is masked: where an encoding stands between bytes that are neither
    * of the alphabet nor pads, the result holds there the encoding of what it held, masked with
    * its own deeper layers, unless that has another length; and the report says so.
    */
  lemma LayerByItselfIsMasked(f: MaskText, left: seq<byte>, d: seq<byte>, right: seq<byte>, depth: nat, maxDepth: nat)
    requires depth < maxDepth && |d| >= 18 && f(d).Some?
    requires left != [] ==> !InAlphabet(left[|left| - 1])
    requires right != [] ==> !InAlphabet(right[0]) && right[0] != '=' as int
    ensures var inner := MaskLayers(f, f(d).value, depth + 1, maxDepth).bytes;
            var m := MaskLayers(f, left + (Encode(d) + right), depth, maxDepth);
            && m.bytes[|left|..|left| + |Encode(d)|] == (if |inner| == |d| then Encode(inner) else Encode(d))
            && (|inner| == |d| && inner != d ==> MaskedRegion(depth, |d|) in m.log)
            && (|inner| != |d| ==> RefusedLengthChange(depth) in m.log)
  {
    var data, t := left + (Encode(d) + right), Encode(d);
    EncodingIsARun(left, d, right);
    assert data[|left|..|left| + |t|] == t;
    RunAlone(f, data, depth, maxDepth, |left|, |left| + |t|);
    LayerAlone(f, d, depth, maxDepth);
  }

  lemma RunAlone(f: MaskText, data: seq<byte>, depth: nat, maxDepth: nat, start: nat, end: nat)
    requires depth < maxDepth && Run(start, end) in Runs(data)
    ensures start < end <= |data|
    ensures var m, r := MaskLayers(f, data, depth, maxDepth), MaskRegion(f, data[start..end], depth, maxDepth);
            m.bytes[start..end] == r.bytes && forall e :: e in r.log ==> e in m.log
  {
    var k :| 0 <= k < |Runs(data)| && Runs(data)[k] == Run(start, end);
    RunHoldsItsOwnMasking(f, data, depth, maxDepth, k);
    RunLogs(f, data, depth, maxDepth, k);
  }

  lemma {:induction false} PartLogs(data: seq<byte>, runs: seq<Run>, parts: seq<Masked>, pos: nat, k: nat, e: Entry)
    requires Ordered(runs, pos, |data|) && Fits(runs, parts) && k < |runs| && e in parts[k].log
    ensures e in Assemble(data, runs, parts, pos).log
    decreases k
  {
    AssembleUnfold(data, runs, parts, pos);
    if k > 0 {
      PartLogs(data, runs[1..], parts[1..], runs[0].end, k - 1, e);
    }
  }

  /** Whatever masking a run alone reports is reported for the file. */
  lemma RunLogs(f: MaskText, data: seq<byte>, depth: nat, maxDepth: nat, k: nat)
    requires depth < maxDepth && k < |Runs(data)|
    ensures var r := Runs(data)[k];
            && r.start < r.end <= |data|
            && forall e :: e in MaskRegion(f, data[r.start..r.end], depth, maxDepth).log ==> e in MaskLayers(f, data, depth, maxDepth).log
  {
    OrderedAt(Runs(data), 0, |data|, k);
    var r, parts := Runs(data)[k], MaskedRuns(f, data, Runs(data), depth, maxDepth);
    forall e | e in MaskRegion(f, data[r.start..r.end], depth, maxDepth).log ensures e in MaskLayers(f, data, depth, maxDepth).log {
      PartLogs(data, Runs(data), parts, 0, k, e);
    }
  }

  // ---------------------------------------------------------------- the report

  lemma {:induction false} AssembledLog(data: seq<byte>, runs: seq<Run>, parts: seq<Masked>, pos: nat, e: Entry)
    requires Ordered(runs, pos, |data|) && Fits(runs, parts)
    requires e in Assemble(data, runs, parts, pos).log
    ensures exists k :: 0 <= k < |runs| && e in parts[k].log
    decreases |runs|
  {
    if runs != [] && e !in parts[0].log {
      AssembledLog(data, runs[1..], parts[1..], runs[0].end, e);
      var k :| 0 <= k < |runs[1..]| && e in parts[1..][k].log;
      assert e in parts[k + 1].log;
    }
  }

  /** At no depth does the report ever hold a refusal for the length of a re-encoding. */
  lemma {:induction false} NeverRefusesReencodeLength(f: MaskText, data: seq<byte>, depth: nat, maxDepth: nat, e: Entry)
    requires e in MaskLayers(f, data, depth, maxDepth).log
    ensures !e.RefusedReencodeLength?
    decreases Levels(depth, maxDepth)
  {
    var runs := Runs(data);
    var parts := MaskedRuns(f, data, runs, depth, maxDepth);
    AssembledLog(data, runs, parts, 0, e);
    var k :| 0 <= k < |runs| && e in parts[k].log;
    var region := data[runs[k].start..runs[k].end];
    RegionRewritten(f, region, depth, maxDepth);
    if Accepted(region) && f(Decode(region + Missing(|region|)).value).Some? {
      var text := f(Decode(region + Missing(|region|)).value).value;
      if e in MaskLayers(f, text, depth + 1, maxDepth).log {
        NeverRefusesReencodeLength(f, text, depth + 1, maxDepth, e);
      }
    }
  }

  lemma RegionOfUnchanged(f: MaskText, region: seq<byte>, depth: nat, maxDepth: nat)
    requires depth < maxDepth
    requires Accepted(region) ==>
               var d := Decode(region + Missing(|region|)).value;
               f(d) == Some(d) && MaskLayers(f, d, depth + 1, maxDepth).bytes == d
    ensures MaskRegion(f, region, depth, maxDepth).bytes == region
  {
    RegionRewritten(f, region, depth, maxDepth);
  }

  lemma {:induction false} IdleMaskerKeepsByte(f: MaskText, data: seq<byte>, depth: nat, maxDepth: nat, i: nat)
    requires forall t :: f(t) == Some(t)
    requires i < |data|
    ensures MaskLayers(f, data, depth, maxDepth).bytes[i] == data[i]
    decreases Levels(depth, maxDepth), 0
  {
    if depth < maxDepth {
      var start, end := ByteOfResult(f, data, depth, maxDepth, i);
      var region := data[start..end];
      if Accepted(region) {
        IdleMaskerChangesNothing(f, Decode(region + Missing(|region|)).value, depth + 1, maxDepth);
      }
      RegionOfUnchanged(f, region, depth, maxDepth);
      assert data[i] == region[i - start];
    }
  }

  /** A masker that finds nothing to mask leaves every layer of every file as it is. */
  lemma {:induction false} IdleMaskerChangesNothing(f: MaskText, data: seq<byte>, depth: nat, maxDepth: nat)
    requires forall t :: f(t) == Some(t)
    ensures MaskLayers(f, data, depth, maxDepth).bytes == data
    decreases Levels(depth, maxDepth), 1
  {
    forall i | 0 <= i < |data| ensures MaskLayers(f, data, depth, maxDepth).bytes[i] == data[i] {
      IdleMaskerKeepsByte(f, data, depth, maxDepth, i);
    }
  }

  // ---------------------------------------------------------------- what is not a layer

  /** Where a byte is from blank to tilde, or one of tab, line feed and carriage return. */
  ghost function Printables(d: seq<byte>): set<int> {
    set i | 0 <= i < |d| && (32 <= d[i] <= 126 || d[i] == 9 || d[i] == 10 || d[i] == 13)
  }

  lemma {:induction false} PrintableIs(d: seq<byte>)
    ensures PrintableCount(d) == |Printables(d)|
  {
    if d == [] {
      assert Printables(d) == {};
    } else {
      var n := |d| - 1;
      PrintableIs(d[..n]);
      PrintableSnoc(d[..n], d[n]);
      assert d == d[..n] + [d[n]];
      assert Printables(d) == if n in Printables(d) then Printables(d[..n]) + {n} else Printables(d[..n]);
    }
  }

  lemma {:induction false} PrintableSnoc(d: seq<byte>, b: byte)
    ensures PrintableCount(d + [b]) == PrintableCount(d) + PrintableCount([b])
  {
    if d == [] {
      assert d + [b] == [b];
    } else {
      assert (d + [b])[1..] == d[1..] + [b];
      PrintableSnoc(d[1..], b);
    }
  }

  /**
    * A region that does not decode, or to nothing, is passed over in silence. One the encoder
    * does not reproduce is kept and reported: as a layer left behind when more than four
    * fifths of what it decodes to are printable.
    */
  lemma KeptRegionIsReported(f: MaskText, region: seq<byte>, depth: nat, maxDepth: nat)
    requires depth < maxDepth
    ensures var m, d := MaskRegion(f, region, depth, maxDepth), Decode(region + Missing(|region|));
            && (d == None || d == Some([]) ==> m == Masked(region, []))
            && (d.Some? && d.value != [] && !Accepted(region) ==>
                  m == Masked(region, [if 100 * |Printables(d.value)| > 80 * |d.value| then NonCanonical(depth) else NotALayer(depth)]))
  {
    var d := Decode(region + Missing(|region|));
    if d.Some? {
      PrintableIs(d.value);
    }
  }

  // ---------------------------------------------------------------- one sample

  const MAX_DEPTH: nat := 4

  /** `mask_sample` after its clash check: mask the text, then its encoded layers, or raise. */
  method MaskSample(f: MaskText, data: seq<byte>, report: Report) returns (r: Option<seq<byte>>)
    modifies report
    ensures r.Some? <==> f(data).Some? && |f(data).value| == |data|
    ensures r.Some? ==> r.value == MaskLayers(f, f(data).value, 0, 4).bytes && |r.value| == |data|
    ensures r.Some? ==> Runs(r.value) == Runs(f(data).value)
  {
    var plain := f(data);
    if plain.None? {
      return None;
    }
    var out := MaskEncodedLayers(f, plain.value, 0, MAX_DEPTH, report);
    RunsAreStable(f, plain.value, 0, MAX_DEPTH);
    if |out| != |data| {
      return None;
    }
    return Some(out);
  }
}
