/**
  * Masking inside nested base64 (`mask_encoded_layers`): every region that the
  * encoder reproduces is decoded, masked, searched again for deeper layers,
  * re-encoded and written back over itself.
  *
  * `MaskLayers` is the left-to-right, purely recursive meaning. `MaskEncodedLayers`
  * is the program: it walks the runs from the last to the first and splices each
  * one into a buffer in place.
  */
module EncodedLayers {
  import opened Prelude
  import opened Base64
  import opened Base64Runs

  /** The text masker. It may change lengths; `None` is its `AssertionError`. */
  type MaskText = seq<byte> -> Option<seq<byte>>

  datatype Entry =
    | NonCanonical(depth: nat)
    | NotALayer(depth: nat)
    | RefusedLengthChange(depth: nat)
    | RefusedReencodeLength(depth: nat)
    | MaskedRegion(depth: nat, decodedBytes: nat)

  datatype Masked = Masked(bytes: seq<byte>, log: seq<Entry>)

  function PrintableCount(d: seq<byte>): nat {
    if d == [] then 0
    else (if 32 <= d[0] < 127 || d[0] == 9 || d[0] == 10 || d[0] == 13 then 1 else 0) + PrintableCount(d[1..])
  }

  /** More than four fifths of the decoded bytes are printable. */
  predicate LooksLikeALayer(d: seq<byte>) {
    5 * PrintableCount(d) > 4 * |d|
  }

  function Levels(depth: nat, maxDepth: nat): nat {
    if depth < maxDepth then maxDepth - depth else 0
  }

  // ---------------------------------------------------------------- meaning

  function Splice(region: seq<byte>, decoded: seq<byte>, inner: Masked, depth: nat): (m: Masked)
    ensures |m.bytes| == |region|
  {
    if inner.bytes == decoded then Masked(region, inner.log)
    else if |inner.bytes| != |decoded| then Masked(region, inner.log + [RefusedLengthChange(depth)])
    else
      var encoded := Encode(inner.bytes);
      var rewritten := if Encode(decoded) == region then encoded else StripPads(encoded);
      if |rewritten| != |region| then Masked(region, inner.log + [RefusedReencodeLength(depth)])
      else Masked(rewritten, inner.log + [MaskedRegion(depth, |decoded|)])
  }

  function MaskRegion(f: MaskText, region: seq<byte>, depth: nat, maxDepth: nat): (m: Masked)
    requires depth < maxDepth
    ensures |m.bytes| == |region|
    decreases Levels(depth, maxDepth), 0, 0
  {
    match Decode(region + Missing(|region|))
    case None => Masked(region, [])
    case Some(decoded) =>
      if decoded == [] then Masked(region, [])
      else if Encode(decoded) != region && StripPads(Encode(decoded)) != region then
        Masked(region, [if LooksLikeALayer(decoded) then NonCanonical(depth) else NotALayer(depth)])
      else
        match f(decoded)
        case None => Masked(region, [RefusedLengthChange(depth)])
        case Some(text) => Splice(region, decoded, MaskLayers(f, text, depth + 1, maxDepth), depth)
  }

  /** One result per run, each as long as its run. */
  predicate Fits(runs: seq<Run>, parts: seq<Masked>) {
    && |parts| == |runs|
    && forall k :: 0 <= k < |runs| ==> runs[k].start + |parts[k].bytes| == runs[k].end
  }

  /** The rest of the file from `pos`, with each run replaced. Later runs report first. */
  function Assemble(data: seq<byte>, runs: seq<Run>, parts: seq<Masked>, pos: nat): (m: Masked)
    requires Ordered(runs, pos, |data|) && Fits(runs, parts)
    ensures pos <= |data| && |m.bytes| == |data| - pos
    decreases |runs|
  {
    OrderedIsBounded(runs, pos, |data|);
    if runs == [] then Masked(data[pos..], [])
    else
      OrderedIsBounded(runs[1..], runs[0].end, |data|);
      var rest := Assemble(data, runs[1..], parts[1..], runs[0].end);
      Masked(data[pos..runs[0].start] + parts[0].bytes + rest.bytes, rest.log + parts[0].log)
  }

  function MaskedRuns(f: MaskText, data: seq<byte>, runs: seq<Run>, depth: nat, maxDepth: nat): (parts: seq<Masked>)
    requires depth < maxDepth && Ordered(runs, 0, |data|)
    ensures Fits(runs, parts)
    ensures forall k :: 0 <= k < |runs| ==>
              0 <= runs[k].start <= runs[k].end <= |data|
              && parts[k] == MaskRegion(f, data[runs[k].start..runs[k].end], depth, maxDepth)
    decreases Levels(depth, maxDepth), 1, 0
  {
    assert forall k :: 0 <= k < |runs| ==> 0 <= runs[k].start <= runs[k].end <= |data| by {
      forall k | 0 <= k < |runs| ensures 0 <= runs[k].start <= runs[k].end <= |data| {
        OrderedAt(runs, 0, |data|, k);
      }
    }
    seq(|runs|, k requires 0 <= k < |runs| => MaskRegion(f, data[runs[k].start..runs[k].end], depth, maxDepth))
  }

  function MaskLayers(f: MaskText, data: seq<byte>, depth: nat, maxDepth: nat): (m: Masked)
    ensures |m.bytes| == |data|
    decreases Levels(depth, maxDepth), 2, 0
  {
    if depth >= maxDepth then Masked(data, [])
    else Assemble(data, Runs(data), MaskedRuns(f, data, Runs(data), depth, maxDepth), 0)
  }

  // ---------------------------------------------------------------- program

  class Report {
    var entries: seq<Entry>

    constructor ()
      ensures entries == []
    {
      entries := [];
    }

    method Append(e: Entry)
      modifies this
      ensures entries == old(entries) + [e]
    {
      entries := entries + [e];
    }
  }

  /** One turn of the loop: what to write over a region, reporting on the way. */
  method MaskOneRegion(f: MaskText, region: seq<byte>, depth: nat, maxDepth: nat, report: Report)
    returns (rewritten: seq<byte>)
    requires depth < maxDepth
    modifies report
    ensures rewritten == MaskRegion(f, region, depth, maxDepth).bytes
    ensures report.entries == old(report.entries) + MaskRegion(f, region, depth, maxDepth).log
    decreases Levels(depth, maxDepth), 0
  {
    rewritten := region;
    var attempt := Decode(region + Missing(|region|));
    if attempt.None? || attempt.value == [] {
      return;
    }
    var decoded := attempt.value;
    var canonical := Encode(decoded);
    var strip := false;
    if canonical != region {
      if StripPads(canonical) != region {
        report.Append(if LooksLikeALayer(decoded) then NonCanonical(depth) else NotALayer(depth));
        return;
      }
      strip := true;
    }
    var text := f(decoded);
    if text.None? {
      report.Append(RefusedLengthChange(depth));
      return;
    }
    var masked := MaskEncodedLayers(f, text.value, depth + 1, maxDepth, report);
    rewritten := Reencode(region, decoded, masked, strip, depth, report, old(report.entries),
                           MaskLayers(f, text.value, depth + 1, maxDepth).log);
  }

  /** The last three conditions on a region, and the encoding that goes over it. */
  method Reencode(region: seq<byte>, decoded: seq<byte>, masked: seq<byte>, strip: bool, depth: nat, report: Report,
      ghost base: seq<Entry>, ghost inner: seq<Entry>)
    returns (rewritten: seq<byte>)
    requires strip <==> Encode(decoded) != region
    requires report.entries == base + inner
    modifies report
    ensures rewritten == Splice(region, decoded, Masked(masked, inner), depth).bytes
    ensures report.entries == base + Splice(region, decoded, Masked(masked, inner), depth).log
  {
    rewritten := region;
    if masked == decoded {
      return;
    }
    if |masked| != |decoded| {
      report.Append(RefusedLengthChange(depth));
      return;
    }
    var encoded := Encode(masked);
    if strip {
      encoded := StripPads(encoded);
    }
    if |encoded| != |region| {
      report.Append(RefusedReencodeLength(depth));
      return;
    }
    report.Append(MaskedRegion(depth, |decoded|));
    rewritten := encoded;
  }

  /** Where the untouched left part of the buffer ends when runs `k` and later are done. */
  function LeftEdge(runs: seq<Run>, k: nat): nat
    requires k <= |runs|
  {
    if k == 0 then 0 else runs[k - 1].end
  }

  lemma LeftEdgeOrdered(runs: seq<Run>, k: nat, hi: nat)
    requires Ordered(runs, 0, hi) && k <= |runs|
    ensures Ordered(runs[k..], LeftEdge(runs, k), hi)
    ensures LeftEdge(runs, k) <= hi
  {
    if k > 0 {
      OrderedAt(runs, 0, hi, k - 1);
    } else {
      assert runs[0..] == runs;
      OrderedIsBounded(runs, 0, hi);
    }
  }

  /** The buffer when runs `k` and later have been spliced. */
  function Buffer(data: seq<byte>, runs: seq<Run>, parts: seq<Masked>, k: nat): (b: Masked)
    requires Ordered(runs, 0, |data|) && Fits(runs, parts) && k <= |runs|
    ensures |b.bytes| == |data|
  {
    LeftEdgeOrdered(runs, k, |data|);
    var m := Assemble(data, runs[k..], parts[k..], LeftEdge(runs, k));
    Masked(data[..LeftEdge(runs, k)] + m.bytes, m.log)
  }

  lemma ShiftEdge<T>(data: seq<T>, lo: nat, start: nat, end: nat, here: seq<T>, rest: seq<T>)
    requires lo <= start <= end <= |data|
    ensures data[..lo] + (data[lo..start] + here + rest)
         == (data[..end] + rest)[..start] + here + (data[..end] + rest)[end..]
  {
    assert data[..lo] + data[lo..start] == data[..start];
    assert (data[..end] + rest)[..start] == data[..start];
    assert (data[..end] + rest)[end..] == rest;
  }

  /** Splicing run `k` turns the buffer for `k + 1` into the buffer for `k`. */
  lemma BufferStep(data: seq<byte>, runs: seq<Run>, parts: seq<Masked>, k: nat)
    requires Ordered(runs, 0, |data|) && Fits(runs, parts) && k < |runs|
    ensures 0 <= runs[k].start < runs[k].end <= |data|
    ensures var before, after := Buffer(data, runs, parts, k + 1), Buffer(data, runs, parts, k);
            && after.bytes == before.bytes[..runs[k].start] + parts[k].bytes + before.bytes[runs[k].end..]
            && after.log == before.log + parts[k].log
  {
    OrderedAt(runs, 0, |data|, k);
    LeftEdgeOrdered(runs, k, |data|);
    LeftEdgeOrdered(runs, k + 1, |data|);
    assert runs[k..][1..] == runs[k + 1..] && parts[k..][1..] == parts[k + 1..];
    var rest := Assemble(data, runs[k + 1..], parts[k + 1..], runs[k].end);
    ShiftEdge(data, LeftEdge(runs, k), runs[k].start, runs[k].end, parts[k].bytes, rest.bytes);
  }

  lemma BufferEnds(data: seq<byte>, runs: seq<Run>, parts: seq<Masked>)
    requires Ordered(runs, 0, |data|) && Fits(runs, parts)
    ensures Buffer(data, runs, parts, |runs|) == Masked(data, [])
    ensures Buffer(data, runs, parts, 0) == Assemble(data, runs, parts, 0)
  {
    LeftEdgeOrdered(runs, |runs|, |data|);
    assert runs[|runs|..] == [] && runs[0..] == runs && parts[0..] == parts;
    assert data[..LeftEdge(runs, |runs|)] + data[LeftEdge(runs, |runs|)..] == data;
    var m := Assemble(data, runs, parts, 0);
    assert data[..0] + m.bytes == m.bytes;
  }

  method Overwrite(out: array<byte>, at: nat, bytes: seq<byte>)
    requires at + |bytes| <= out.Length
    modifies out
    ensures out[..] == old(out[..])[..at] + bytes + old(out[..])[at + |bytes|..]
  {
    forall i | at <= i < at + |bytes| {
      out[i] := bytes[i - at];
    }
  }

  method SpliceRun(f: MaskText, data: seq<byte>, m: Run, out: array<byte>, depth: nat, maxDepth: nat, report: Report)
    requires depth < maxDepth && m.start <= m.end <= |data| == out.Length
    modifies out, report
    ensures var here := MaskRegion(f, data[m.start..m.end], depth, maxDepth);
            && out[..] == old(out[..])[..m.start] + here.bytes + old(out[..])[m.end..]
            && report.entries == old(report.entries) + here.log
    decreases Levels(depth, maxDepth), 1
  {
    var rewritten := MaskOneRegion(f, data[m.start..m.end], depth, maxDepth, report);
    Overwrite(out, m.start, rewritten);
  }

  /** The loop: from the last run to the first. */
  method SpliceAll(f: MaskText, data: seq<byte>, runs: seq<Run>, out: array<byte>, depth: nat, maxDepth: nat, report: Report)
    requires depth < maxDepth && Ordered(runs, 0, |data|) && out[..] == data
    modifies out, report
    ensures var m := Assemble(data, runs, MaskedRuns(f, data, runs, depth, maxDepth), 0);
            out[..] == m.bytes && report.entries == old(report.entries) + m.log
    decreases Levels(depth, maxDepth), 2
  {
    ghost var parts := MaskedRuns(f, data, runs, depth, maxDepth);
    BufferEnds(data, runs, parts);
    var k := |runs|;
    ghost var done := Buffer(data, runs, parts, k);
    while k > 0
      invariant 0 <= k <= |runs|
      invariant done == Buffer(data, runs, parts, k)
      invariant out[..] == done.bytes && |done.bytes| == |data|
      invariant report.entries == old(report.entries) + done.log
    {
      k := k - 1;
      BufferStep(data, runs, parts, k);
      SpliceRun(f, data, runs[k], out, depth, maxDepth, report);
      ConcatAssociates(old(report.entries), done.log, parts[k].log);
      done := Buffer(data, runs, parts, k);
    }
  }

  /** The program: right to left, in place. It computes the left-to-right meaning. */
  method MaskEncodedLayers(f: MaskText, data: seq<byte>, depth: nat, maxDepth: nat, report: Report)
    returns (result: seq<byte>)
    modifies report
    ensures result == MaskLayers(f, data, depth, maxDepth).bytes
    ensures report.entries == old(report.entries) + MaskLayers(f, data, depth, maxDepth).log
    decreases Levels(depth, maxDepth), 3
  {
    if depth >= maxDepth {
      return data;
    }
    var out := new byte[|data|](i requires 0 <= i < |data| => data[i]);
    assert out[..] == data;
    SpliceAll(f, data, Runs(data), out, depth, maxDepth, report);
    result := out[..];
  }
}
