/**
  * `definitely_stale`: the cheap test that never hashes. It is one-sided in the
  * direction its name promises only for what a hash could see; a file replaced
  * with identical bytes is "definitely stale" and still opens.
  */
module Staleness {
  import opened Prelude
  import opened Utf8Order
  import opened DerivedDb
  import opened Finders

  datatype File = File(content: Content, stat: Stat)

  /** The bytes of a JSONL file: each line and its newline. */
  function ByteSize(content: Content): nat {
    if content == [] then 0
    else (match content[0] case Blank => 1 case Record(text, _) => |Utf8(text)| + 1) + ByteSize(content[1..])
  }

  /** What the file holds: the UTF-8 of each line, and a newline after it. */
  ghost function Bytes(content: Content): seq<byte> {
    if content == [] then [] else (if content[0].Blank? then [] else Utf8(content[0].text)) + [10] + Bytes(content[1..])
  }

  lemma {:induction false} SizeIsLength(content: Content)
    ensures ByteSize(content) == |Bytes(content)|
  {
    if content != [] {
      SizeIsLength(content[1..]);
    }
  }

  ghost predicate Truthful(f: File) {
    f.stat.bytes == ByteSize(f.content)
  }

  function Contents(files: map<Half, File>): map<Half, Content> {
    map h | h in files :: files[h].content
  }

  /** The snapshots a build takes of these files, in source order. */
  function SnapshotsOf(files: map<Half, File>): (snaps: seq<Snapshot>)
    ensures InSourceOrder(snaps)
  {
    (if Published in files then [Snapshot(Published, files[Published].content, files[Published].stat)] else [])
    + (if Local in files then [Snapshot(Local, files[Local].content, files[Local].stat)] else [])
  }

  predicate Suspect(db: Db, files: map<Half, File>, h: Half) {
    if h in files && h in db.sources then files[h].stat != db.sources[h].stat else h in files || h in db.sources
  }

  /** `stored` is what the database file records, if there is one and it can be read. */
  method DefinitelyStale(stored: Option<Db>, files: map<Half, File>) returns (stale: bool)
    ensures stale <==> stored.None? || Published !in files || exists h :: Suspect(stored.value, files, h)
  {
    if stored.None? || Published !in files {
      return true;
    }
    var db := stored.value;
    stale := false;
    for k := 0 to |SOURCES|
      invariant stale <==> exists i :: 0 <= i < k && Suspect(db, files, SOURCES[i])
    {
      var h := SOURCES[k];
      if h in files && h !in db.sources {
        stale := true;
      } else if h in db.sources && h !in files {
        stale := true;
      } else if h in files {
        if files[h].stat.bytes != db.sources[h].stat.bytes {
          stale := true;
        } else if files[h].stat.stamp != db.sources[h].stat.stamp {
          stale := true;
        }
      }
    }
    if h :| Suspect(db, files, h) {
      assert h == SOURCES[0] || h == SOURCES[1];
    }
  }

  lemma {:induction false} SourceStat(snaps: seq<Snapshot>, i: nat)
    requires InSourceOrder(snaps) && i < |snaps|
    ensures snaps[i].half in Tables(snaps).sources
    ensures Tables(snaps).sources[snaps[i].half].stat == snaps[i].stat
    decreases |snaps|
  {
    var n := |snaps| - 1;
    var init := Tables(snaps[..n]);
    assert Tables(snaps) == AddSource(init, snaps[n]);
    if i < n {
      SourceStat(snaps[..n], i);
      assert snaps[i].half != snaps[n].half;
    }
  }

  lemma RecordedStat(files: map<Half, File>, h: Half)
    requires h in files
    ensures h in Tables(SnapshotsOf(files)).sources
    ensures Tables(SnapshotsOf(files)).sources[h].stat == files[h].stat
  {
    var snaps := SnapshotsOf(files);
    match h
    case Published => SourceStat(snaps, 0);
    case Local => SourceStat(snaps, |snaps| - 1);
  }

  lemma FilesOfSnapshots(files: map<Half, File>)
    ensures FilesOf(SnapshotsOf(files)) == Contents(files)
  {
    var snaps := SnapshotsOf(files);
    if |snaps| == 2 {
      FilesAndEntriesOfTwo(snaps[0], snaps[1]);
      assert snaps == [snaps[0], snaps[1]];
    } else if |snaps| == 1 {
      FilesAndEntriesOfTwo(snaps[0], snaps[0]);
      assert snaps == [snaps[0]];
    }
    forall h ensures h in FilesOf(snaps) <==> h in Contents(files) {
      match h
      case Published =>
      case Local =>
    }
    forall h | h in Contents(files) ensures FilesOf(snaps)[h] == Contents(files)[h] {
      match h
      case Published =>
      case Local =>
    }
  }

  lemma StillOpensIffUnmoved(before: map<Half, File>, now: map<Half, File>)
    ensures Fresh(Complete(Tables(SnapshotsOf(before))), Contents(now)) <==> Contents(now) == Contents(before)
  {
    FreshIffUnmoved(SnapshotsOf(before), Contents(now));
    FilesOfSnapshots(before);
  }

  lemma RecordedHalves(files: map<Half, File>, h: Half)
    ensures h in Tables(SnapshotsOf(files)).sources <==> h in files
  {
    BuildRecordsItsSources(SnapshotsOf(files), h);
    FilesOfSnapshots(files);
    assert h in Contents(files) <==> h in files;
  }

  /**
    * What the test proves and what it does not: a half it names by presence or by
    * size makes an open refuse; with the bytes unmoved it can name a half by stamp alone.
    */
  lemma SuspectWhileUnmoved(before: map<Half, File>, now: map<Half, File>, h: Half)
    requires forall g :: g in before ==> Truthful(before[g])
    requires forall g :: g in now ==> Truthful(now[g])
    requires Contents(now) == Contents(before)
    ensures Suspect(Complete(Tables(SnapshotsOf(before))), now, h) <==>
              h in now && h in before && now[h].stat.stamp != before[h].stat.stamp
  {
    assert h in Contents(now) <==> h in now;
    assert h in Contents(before) <==> h in before;
    RecordedHalves(before, h);
    if h in before {
      RecordedStat(before, h);
      assert now[h].content == Contents(now)[h] == Contents(before)[h] == before[h].content;
    }
  }

  /** The input that shows it: the same bytes put back under another inode. */
  lemma DefinitelyStaleStillOpens()
    ensures var before := map[Published := File([Blank], Stat(1, 7))];
            var now := map[Published := File([Blank], Stat(1, 8))];
            var db := Complete(Tables(SnapshotsOf(before)));
            Suspect(db, now, Published) && Fresh(db, Contents(now))
  {
    var before := map[Published := File([Blank], Stat(1, 7))];
    var now := map[Published := File([Blank], Stat(1, 8))];
    StillOpensIffUnmoved(before, now);
    assert Contents(now) == map[Published := [Blank]] == Contents(before);
    SuspectWhileUnmoved(before, now, Published);
  }
}
