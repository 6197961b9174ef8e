# Corpus tooling, modelled and proved in Dafny

A model of the Python tools under `corpus/` that keep a published malware corpus honest:
they mask customer names in samples and index rows, write the index from several processes,
derive a read index from it, record human clearances of gate findings, census which fields
any tool writes, regenerate figures in documents, and validate family labels.
`dafny verify dfyconfig.toml` checks everything.

What is modelled, module by module:

- **Base64, Base64Runs** - the RFC 4648 codec on bytes, the canonical-bits rule of section 3.5,
  and the maximal runs a scan finds.
- **EncodedLayers, EncodedLayersProofs** - masking inside nested base64: a recursive
  left-to-right specification, the in-place right-to-left loop over a buffer with its report,
  and what the result guarantees.
- **Scanner, MaskPairs, MaskTiers, NameRules, IncidentMask, MaskVocabulary, MaskCollisions,
  MaskRows** - literal alternations with one-sided guards, the names of an incident map, the tier each
  gets, the passes that follow, what they do to the vocabulary the tiers were measured on, the report
  on it, and the walk over a whole row.
- **MaskReach, MaskPlaces, MaskClear, MaskExact, MaskKept, MaskWitness** - how far masking reaches,
  and where it looks for each tier; for which maps no name is left, where that is exact, what a
  keep-list adds, and maps that leave one.
- **KeepHoles, KeptSpans, ContentIdentifiers, ReplacementRules, ContentMasker, Splitting** - the
  keep-list, its numbered holes and their restoring; the length-preserving replacements, character
  by character, and the object that logs them.
- **DerivedDb, Finders, FinderLines, Utf8Order, Staleness** - the derived tables, the freshness
  test, the three finders against a scan of the files and against their lines, the byte-order range
  for a path prefix, the cheap staleness test.
- **IndexIo, IndexProtocol, IndexSafety, IndexSteps, IndexTheorems, IndexProgress, IndexMoments,
  LockedIndex** - the atomic write and the lock's retry loop; writers of one half, the mover that publishes rows
  under both locks, readers, builders and opens as interleaved steps over a file system with
  inodes and advisory locks; what every run keeps, and what each process gets done if left to itself.
- **PublishMove, PublishRules** - which rows are published, and what the move makes of rows that
  changed since.
- **JsonValues, Clearance, ClearFinding, ClearanceChecks, ClearanceRuns, GateEvidence** -
  clearances keyed to a finding digest and a provenance pin, signing and backfilling them,
  the assertions before a write, whole histories of a row, and the evidence comparison.
  **ClearanceRules, SigningRules, GateEvidenceRules** say the same of the keys of the records.
- **ControlOnly, FieldCensus, CensusPaths** - the reachability analysis that excludes control
  suites, the direction in which the field census can be wrong, and what it decides in terms of the
  syntax trees.
- **DocRegions, DocFigures, FiguresOnDisk** - generated regions of documents, and what a run does
  in terms of the lines of the files.
- **FamilyEvidence, MarkerLists, AssignFamily, AssignSession, AuditScope** - when a family says more
  than the scanner's output does, the session validator that asks, and the audit that asks again.
  **FamilyRules, SessionRules** say what is accepted and written in terms of proposals and rows.

Code that works by changing things step by step is a method with loops, or a class, proved
against a specification function; code made of expressions is functions. Theorems about
whole runs are lemmas over the specification. What a specification function means is said once more
without it, by quantifying over lines, keys, characters or paths, and the two are proved to agree.

Where the code and what is said of it differ, the model follows the code:

- `definitely_stale` also reports a moved inode or modification time over identical bytes, so a
  database it calls stale can still be opened (`Staleness.DefinitelyStaleStillOpens`).
- `verify_markers` counts a marker once per listing, so one member and a marker listed twice
  satisfy "at least two members" (`FamilyEvidence.ListedTwicePasses`); the lists that cannot be
  passed that way are exactly those of `MarkerLists.KeepsPromiseIff`.
- Restoring kept spans goes wrong when two that follow each other are separated by exactly the
  number of an earlier one (`KeptSpans.FalseHoleExample`); the exact condition is
  `KeptSpans.RestoredIffUnambiguous`. The length-preserving masker refuses such a sample only
  if its length moved, and it need not move (`ContentMasker.CorruptedAtItsLength`,
  `ContentMasker.LengthTestIsBlind`).
- A sample may itself hold what looks like a numbered hole, and it is then filled with a kept span
  (`ContentMasker.HoleInTextIsFilled`, `ContentMasker.HoleInTextCorrupts`).
- What masking writes is not looked at again, so a name can be left in three ways: copied text and
  a pseudonym spell it (`MaskWitness.NameMetIsLeft`), or a pseudonym beside it satisfies a guard that
  the text did not, behind the name (`MaskWitness.NameBehindIsLeft`) or ahead of it
  (`MaskWitness.NameAheadIsLeft`). A map that allows none of the three, and replaces nothing by
  nothing, leaves no name of a wide pass in any text (`MaskClear.ClearMapLeavesNoName`). Where
  pseudonyms begin with a letter and end with a letter or digit it is enough that no name can be laid
  over one (`MaskClear.PlainPseudonymsClear`). For accounts that may be replaced anywhere the
  condition is exact, up to what begins another match first (`MaskExact.TierALeavesIff`). A
  keep-list protects names by design; what is left is then of a kept span, or beside one
  (`MaskKept.OnlyKeptSpansHoldMappedNames`).
- Which rows are published, and in what form, is decided before the locks are taken. A change to such
  a row in between, a hold placed on it for one, is lost (`PublishMove.UpdateInBetweenIsLost`); when a
  row lands as it stood is `PublishMove.LandsAsItStoodIff`. A list that names a row twice publishes it twice
  (`PublishMove.PublishedOnceIff`).
- The audit asks whether a family restates the rule-set over more rows than the validation it follows
  did; the answers agree exactly as `AuditScope.AuditAgreesIff` says.
- A path prefix ending in U+10FFFF has no upper bound, and unless it is made of that character
  alone finds more than its prefix says (`Utf8Order.ExactIffBounded`).
- A share just under one half is rounded up before it is compared with the floor
  (`FamilyEvidence.JustUnderHalfIsSpared`); the families refused are exactly those of
  `FamilyEvidence.PileLikeIff`.
- The comparison of gate evidence says `agrees` in two cases in which the digest moves
  (`GateEvidence.RecordedNullMovesTheDigest`, `GateEvidence.HollowBlockMovesTheDigest`), and only
  in these (`GateEvidence.SameFindingIff`).
- A rendered line that holds a newline is read back as two lines (`DocFigures.ReadBackIff`).

## Model

| member | source | states |
|---|---|---|
| `Base64.DecodeOfEncode` | corpus/content_mask.py:543-549 | decoding what the encoder wrote gives the bytes back, for every byte string |
| `Base64.EncodeShape` | corpus/content_mask.py:549-553 | an encoding is a multiple of four characters, all of the alphabet but for at most two pads at the end, and its length is a function of the input length alone |
| `Base64.SpliceIsLocal` | corpus/content_mask.py:60-68 | for inputs of equal length, encoded characters differ only inside four-character groups whose three-byte group differs |
| `Base64.AcceptedIffCanonical` | corpus/content_mask.py:540-573 | a run is accepted for splicing exactly when it is a canonical encoding, padded or with all its pads left off, with zero bits in the final group (RFC 4648 sections 3.5 and 4) |
| `Base64.AcceptedIsEncoding` | corpus/content_mask.py:549-553 | an accepted run is, up to its missing pads, the one encoding of the bytes it decodes to |
| `Base64.EncodingOfRegion` | corpus/content_mask.py:549-553 | what re-encoding gives for an accepted run: the run itself, with or without pads |
| `Base64Runs.RunsAreTheMaximalStretches` | corpus/content_mask.py:508-508 | the runs the scan finds are exactly the stretches of at least 24 alphabet characters, none before and none after them, with the pads that follow, two at most; in order and apart |
| `Base64Runs.EncodingIsARun` | corpus/content_mask.py:508-508 | where the encoding of 18 bytes or more stands between bytes that are neither alphabet characters nor pads, its characters, with none, one or two pads, are exactly one run |
| `Base64Runs.SameShapeSameRuns` | corpus/content_mask.py:508-508 | two byte strings with alphabet characters and pads at the same places have the same runs |
| `EncodedLayers.Report.Append` | corpus/content_mask.py:569-594 | a report entry is added at the end and earlier ones stay |
| `EncodedLayers.MaskOneRegion` | corpus/content_mask.py:539-591 | one region in the order of its refusals: what it becomes and what is reported, as the recursive specification says |
| `EncodedLayers.Reencode` | corpus/content_mask.py:579-590 | the last three refusals of a region in order, and what the region becomes |
| `EncodedLayers.Overwrite` | corpus/content_mask.py:592-592 | writing a replacement at a span changes those bytes of the buffer and no others |
| `EncodedLayers.SpliceRun` | corpus/content_mask.py:538-594 | one turn of the right-to-left loop over the buffer |
| `EncodedLayers.SpliceAll` | corpus/content_mask.py:538-595 | the whole right-to-left loop leaves the buffer as the left-to-right specification assembles it |
| `EncodedLayers.MaskEncodedLayers` | corpus/content_mask.py:525-595 | the in-place loop, whatever the masking function does to lengths, computes the recursive specification and appends exactly its report; it ends because the depth left shrinks |
| `EncodedLayersProofs.OutsideRunsUnchanged` | corpus/content_mask.py:65-69 | the file keeps its length and every byte outside the runs |
| `EncodedLayersProofs.RunHoldsItsOwnMasking` | corpus/content_mask.py:538-594 | each run holds what masking that run alone gives, whatever the other runs were |
| `EncodedLayersProofs.RegionRewritten` | corpus/content_mask.py:575-594 | a region is rewritten exactly when it is accepted, its decoded bytes masked at this level and below differ, and no length moved |
| `EncodedLayersProofs.RewrittenRegionDecodes` | corpus/content_mask.py:586-592 | a rewritten region decodes to the recursively masked bytes |
| `EncodedLayersProofs.RewrittenCharacterHasChangedGroup` | corpus/content_mask.py:60-68 | in a rewritten region a character differs only where the bytes of its own group differ |
| `EncodedLayersProofs.FileKeepsShape` | corpus/content_mask.py:508-508 | after masking, alphabet characters and pads stand where they stood |
| `EncodedLayersProofs.RunsAreStable` | corpus/content_mask.py:508-508 | a masked file has the same runs, so a second pass meets the same regions |
| `EncodedLayersProofs.NeverRefusesReencodeLength` | corpus/content_mask.py:586-591 | the refusal for a changed length after re-encoding is never reported: the branch cannot be reached |
| `EncodedLayersProofs.LayerByItselfIsMasked` | corpus/content_mask.py:525-595 | an encoding that stands by itself in a file holds, afterwards, the encoding of what it held with its own deeper layers masked, or what it held if that has another length, and the report says which |
| `EncodedLayersProofs.KeptRegionIsReported` | corpus/content_mask.py:539-573 | a region that does not decode, or to nothing, is passed over; one the encoder does not reproduce is kept, and reported as a layer left behind when more than four fifths of its decoded bytes are printable |
| `EncodedLayersProofs.IdleMaskerChangesNothing` | corpus/content_mask.py:538-595 | a masking function that returns its input leaves every file as it is |
| `EncodedLayersProofs.MaskSample` | corpus/content_mask.py:598-634 | plain text first, then the layers, of one sample: length kept when the text masker keeps it |
| `Utf8Order.ByteOrderIsCodePointOrder` | corpus/derived_db.py:635-645 | comparing two scalar-value strings by their UTF-8 bytes is comparing them by code point (RFC 3629 sections 1 and 3) |
| `Utf8Order.RangeScanIsPrefixTest` | corpus/derived_db.py:635-651 | where there is an upper bound, `prefix <= s < upper` in byte order holds exactly for the strings that start with the prefix, across the surrogate gap too |
| `Utf8Order.RangeScanMissesNothing` | corpus/derived_db.py:654-672 | with or without a bound the scan finds every string that starts with the prefix |
| `Utf8Order.UnboundedRangeHasMore` | corpus/derived_db.py:648-650 | where there is no bound and some character of the prefix is below U+10FFFF, the scan also finds a string that does not start with the prefix |
| `Utf8Order.ExactIffBounded` | corpus/derived_db.py:635-651 | the range scan is exact if and only if the last character of the prefix is below U+10FFFF or every character is U+10FFFF |
| `DerivedDb.FillSource` | corpus/derived_db.py:419-441 | the rows, tags and paths one source adds, in file order, under consecutive row numbers |
| `DerivedDb.BuildTables` | corpus/derived_db.py:389-455 | the loop over the snapshots fills exactly the specified tables and completes them last |
| `DerivedDb.Verify` | corpus/derived_db.py:496-563 | all complaints are collected in the order the code makes them; a database is refused with every one of them |
| `DerivedDb.NoComplaintsIffFresh` | corpus/derived_db.py:524-563 | nothing is complained of exactly when version, set of sources, hashes and held row counts all agree |
| `Finders.TablesAreEntries` | corpus/derived_db.py:416-451 | the three tables of a build are those of the entries of its snapshots, one after the other |
| `Finders.ClusterQueryIsScan` | corpus/derived_db.py:606-621 | the cluster query returns the rows a scan of the entries returns, in file order |
| `Finders.TagQueryIsScan` | corpus/derived_db.py:624-632 | the tag query returns a row once for every occurrence of the pair among its tags |
| `Finders.PathQueryIsScan` | corpus/derived_db.py:654-672 | for a prefix with an exact range the path query returns each matching row once, in order |
| `Finders.BuildRecordsItsSources` | corpus/derived_db.py:443-448 | a finished build records, per half, the hash of the bytes it read and the number of rows it holds |
| `Finders.FreshIffUnmoved` | corpus/derived_db.py:524-563 | a finished build is fresh exactly when every half present now has the bytes the build read, and no other half is present |
| `Finders.AcceptedFindersAreScans` | corpus/derived_db.py:602-672 | on a database that passes verification all three finders give what scanning the hashed files gives, published half first |
| `FinderLines.ClusterLines` | corpus/derived_db.py:606-621 | on an accepted database a cluster query gives, of the lines of the two files in their order, exactly those whose `bucket`, `family` or `staging_dir` is the string asked for, once each |
| `FinderLines.TagLines` | corpus/derived_db.py:624-632 | a tag query gives them as often as the string stands in the list of that name, in `expect.must_detect`, or among the keys of `placements` |
| `FinderLines.PathLines` | corpus/derived_db.py:654-672 | a path query gives, once each, those whose `origin.path` starts with the prefix, for a prefix that does not end in U+10FFFF |
| `FinderLines.TagsCounted` | corpus/derived_db.py:316-333 | a row is tagged once for every string of each of the five lists, of `expect.must_detect`, and for every key of `placements` |
| `FinderLines.EntriesAreLines` | corpus/derived_db.py:386-391 | the entries of a file are record lines of it, each under its own number, in order |
| `FinderLines.EveryLineIsAnEntry` | corpus/derived_db.py:386-391 | and every record line is one of them |
| `FinderLines.ColumnsAreFields` | corpus/derived_db.py:294-313 | every column of the row table is the field of its name, where that has the type of the column |
| `FinderLines.RowsAreEntries` | corpus/derived_db.py:416-441 | the row table numbers the entries from one and keeps half, line number, columns and line of each |
| `Staleness.DefinitelyStale` | corpus/derived_db.py:252-289 | the test answers yes exactly if the database is missing or unreadable, the published half is missing, or some half is extra, gone, or of another size or stamp than recorded |
| `Staleness.StillOpensIffUnmoved` | corpus/derived_db.py:496-587 | whether an open would return, in terms of the bytes alone |
| `Staleness.SuspectWhileUnmoved` | corpus/derived_db.py:280-288 | when the bytes are those of the build and the database opens, the cheap test still answers yes exactly if an inode or modification time moved |
| `Staleness.DefinitelyStaleStillOpens` | corpus/derived_db.py:252-289 | a concrete disk on which the database is called stale and an open returns: staleness reported does not imply refusal |
| `IndexSafety.InitialInv` | corpus/indexio.py:1-24 | a disk with any index files, no locks and nobody running satisfies the invariant |
| `IndexSafety.StepKeepsInv` | corpus/indexio.py:44-137 | a change to the disk that leaves other processes alone keeps the invariant for all of them |
| `IndexSteps.Exclusion` | corpus/indexio.py:92-137 | two processes holding a lock for one half are the same process |
| `IndexSteps.ReplaceKeeps` | corpus/indexio.py:44-76 | replacing an index keeps the invariant: whole contents in place, history extended by this one transformation |
| `IndexSteps.ReplaceDbKeeps` | corpus/derived_db.py:462-466 | replacing the database keeps the invariant: only a complete build is ever in place |
| `IndexSteps.TakeBuildLockKeeps` | corpus/derived_db.py:380-386 | a builder takes its locks published half first |
| `IndexSteps.MoveOnKeeps` | corpus/publish-rows.py:167-177 | every step of a process that publishes rows keeps the invariant |
| `IndexSteps.StepKeeps` | corpus/indexio.py:44-137 | every step of every process keeps the invariant |
| `IndexSteps.RunKeepsInv` | corpus/indexio.py:44-137 | every interleaving of steps keeps the invariant |
| `IndexTheorems.RunAppends` | corpus/indexio.py:44-76 | a run only appends to the history of each half |
| `IndexTheorems.NoLostUpdate` | corpus/indexio.py:92-137 | after any interleaving the index is the transformations of all committed writers applied in the order they held the lock, and none is missing |
| `IndexTheorems.OneHolder` | corpus/indexio.py:92-137 | over any run at most one process holds the lock of a half |
| `IndexTheorems.ReaderSeesOneVersion` | corpus/indexio.py:38-41 | a reader without a lock gets one whole content the half had at or after the moment it opened the file |
| `IndexTheorems.AcceptedOpenIsRight` | corpus/derived_db.py:566-587 | an open that returned, under any interleaving, is on a whole database, and every finder on it gives what scanning the bytes it hashed gives; each of those was the half's content since the open began |
| `IndexTheorems.OpenReturnsIffUnmoved` | corpus/derived_db.py:496-587 | an open that has hashed every half returns exactly if those bytes are the ones the build read; an index written since means refusal |
| `IndexTheorems.NoDeadlock` | corpus/derived_db.py:380-382 | whenever some process waits for a lock, some process holding a lock can take its next step; builders and movers take both locks, the published half first |
| `IndexProgress.WriterInstalls` | corpus/indexio.py:44-137 | from any point of a run at which its lock is free, a writer left to itself leaves the half as its transformation of it, the other half as it was, and the lock free |
| `IndexProgress.ReaderReads` | corpus/indexio.py:38-41 | a reader left to itself gets the rows the half has |
| `IndexProgress.BuilderBuilds` | corpus/derived_db.py:350-466 | a builder that finds the locks free puts in place a database that is fresh against both halves as they are, and leaves the locks free |
| `IndexProgress.OpenReturns` | corpus/derived_db.py:566-587 | an open returns where the database in place is fresh against the files as they are and the published half is there |
| `IndexProgress.MoverMovesBoth` | corpus/publish-rows.py:167-178 | a mover that finds both locks free leaves each half as its move of it, and the locks free |
| `IndexProgress.FillsWhatItRead` | corpus/derived_db.py:380-400 | no table is filled before every half wanted is locked and read |
| `IndexProgress.MovesWhatItRead` | corpus/publish-rows.py:167-172 | in any run, nothing is published before both halves are locked and read, and what was read is what they hold |
| `IndexProgress.AcceptsWhatItHashed` | corpus/derived_db.py:524-563 | no open returns before every half there is has been hashed, the published one among them |
| `IndexProgress.AnyStart` | corpus/indexio.py:1-24 | a run can start from any rows in the halves that are there, with any processes, all locks free |
| `IndexMoments.MoveIsOneOfThree` | corpus/publish-rows.py:167-177 | while rows are moved under both locks the halves are as read, or the published one is written, or both are, as at the end |
| `PublishMove.Adjudicate` | corpus/publish-rows.py:107-152 | the loop over the hashes asked for: each moves or is refused with the first reason that applies; what moves was in the local half and not in the published one, and lands without its origin |
| `PublishRules.WhyNotIs` | corpus/publish-rows.py:107-152 | each reason spelled out on the keys of the row: not in the local half, already published, unreviewed, held, tagged `pii` or `content`, not publishable, its form without the origin, not staged; the first that holds is given, and a row for which none holds moves |
| `PublishMove.NoRowInNeitherHalf` | corpus/publish-rows.py:167-178 | at every moment of a move, under any interleaving, a row of the local half as it was read is there still or is in the published half under its sha256, and a row of the published half stays |
| `PublishMove.LandsAsItStoodIff` | corpus/publish-rows.py:107-178 | a row that is dropped has landed as it stood, save for its origin, if and only if the published half held it so already, or did not have its sha256 and the row is as it was when the move was decided |
| `PublishMove.MovedAsItStoodIff` | corpus/publish-rows.py:167-178 | the same of the two halves in place once a move is done, in any run |
| `PublishMove.UpdateInBetweenIsLost` | corpus/publish-rows.py:289-320 | a change made to a row between the decision and the locks is in neither half after the move |
| `PublishMove.PublishedOnceIff` | corpus/publish-rows.py:173-175 | a published half with one row to a sha256 keeps to that if and only if no sha256 it does not have is asked for twice |
| `IndexMoments.AcceptedHalvesBelongTogether` | corpus/derived_db.py:380-386 | the bytes of all halves an accepted open hashed were current at one moment of the run |
| `LockedIndex.LockingTheIndexLosesAnUpdate` | corpus/indexio.py:92-107 | with the lock on the index itself instead of a sibling, a concrete run ends with a committed row missing |
| `IndexIo.RowFiles.WriteAtomic` | corpus/indexio.py:44-76 | the loop over the rows and the rename: the path names a new whole file and every earlier file keeps its rows; a write that fails at any point leaves the directory and the files as they were |
| `IndexIo.WriteStepsReplace` | corpus/indexio.py:60-67 | the steps of one write, uninterrupted: the index holds the rows written before and those still to do, and the half's history gains this transformation |
| `IndexIo.WriterInstallsItsRows` | corpus/indexio.py:44-76 | from its re-read on, a writer that is not stopped installs its transformation of what it re-read, in one step per row and two more |
| `IndexIo.AcquireLock` | corpus/indexio.py:92-125 | the retry loop gets the lock at the first attempt that can have it, unless the deadline has passed at an earlier one, and announces the wait at most once |
| `Scanner.AlternationSorts` | corpus/incident_mask.py:112-114 | the alternation lists the same names, longest first |
| `Scanner.MatchIsLongest` | corpus/incident_mask.py:112-114 | the match at a position is a name whose guards hold there, and it is longer than every other such name |
| `MaskPairs.OwnerOf` | corpus/incident_mask.py:147-157 | the account a label belongs to is related to it and no related account is longer |
| `MaskPairs.Direct` | corpus/incident_mask.py:135-142 | accounts and domains with their pseudonyms, a domain's winning over an account's, and the usable labels with theirs |
| `MaskPairs.Pairs` | corpus/incident_mask.py:117-164 | every name of the map and its one pseudonym; a label never replaces an account or a domain |
| `NameRules.PairIs` | corpus/incident_mask.py:117-164 | what a name is masked as, read off the map: the last domain of that name, or else the last account, or else, for a usable label, the pseudonym of the longest account related to it, the first of equals, or of its domains less `.tld` if they agree on one; any other name is not masked |
| `NameRules.RegistrableIs` | corpus/incident_mask.py:104-109 | the label of a domain is the part before its public suffix of two parts or one, empty parts not counted |
| `MaskPairs.Unresolved` | corpus/incident_mask.py:167-180 | exactly the labels shared by several pseudonyms that no account is related to |
| `MaskPairs.MaskedOrReported` | corpus/incident_mask.py:158-180 | every usable label has a pseudonym or is reported, and has both only if it is itself a mapped domain |
| `MaskPairs.SharedLabelIsNotGuessed` | corpus/incident_mask.py:160-163 | a label of several pseudonyms is masked under its own where it is a mapped domain, and otherwise only as an account it is related to |
| `MaskTiers.Tiers` | corpus/incident_mask.py:199-225 | the loop gives each name the widest tier its collisions permit |
| `NameRules.TierIs` | corpus/incident_mask.py:199-225 | D exactly for a token of the vocabulary or less than three characters, C where another token begins with it, A for six characters or more that stand in no token, B otherwise |
| `MaskTiers.PrefixRank` | corpus/incident_mask.py:199-225 | a proper prefix is put in an earlier pass than the longer name if and only if the longer name is a vocabulary token, the prefix is not one, and it has at least three letters |
| `IncidentMask.MaskWith` | corpus/incident_mask.py:273-291 | stash, four wide passes, the positional passes and the restoring loop, in that order, compute the specification |
| `IncidentMask.Mask` | corpus/incident_mask.py:273-291 | the row masker: empty text and sha256 fields come back as they are |
| `NameRules.MaskedIs` | corpus/incident_mask.py:277-278 | what is left alone is exactly the empty text and 64 hexadecimal digits, before a newline at most |
| `MaskVocabulary.WordPatternFires` | corpus/incident_mask.py:254-263 | on a token of the vocabulary the word pattern fires at the start for exactly the tier-C names that a digit follows |
| `MaskVocabulary.VocabularyUntouched` | corpus/incident_mask.py:199-225 | with tiers computed against a vocabulary and no keep-list, a token of it, in any letter case, comes out unchanged unless a tier-C name begins it before a digit |
| `MaskVocabulary.ResidueOfVocabulary` | corpus/incident_mask.py:235-263 | what the exception becomes, exactly: the longest such name replaced by its pseudonym, the rest as it was; unchanged only for a sha256 field or a pseudonym equal to the name |
| `MaskVocabulary.PrefixNeverFirst` | corpus/incident_mask.py:246-288 | where a longer name stands with its guards met, neither an earlier pass nor its own takes a name it begins with |
| `MaskCollisions.Collisions` | corpus/incident_mask.py:294-325 | the loop reports every token that masking changes, in order, with the longest name inside it |
| `MaskCollisions.CollisionsAreResidues` | corpus/incident_mask.py:294-325 | with tiers measured on this vocabulary the report lists exactly the tokens a tier-C name begins before a digit |
| `MaskReach.MaskingReaches` | corpus/incident_mask.py:235-292 | with no keep-list and no empty replacement: wherever a name of any pass still stands in a masked text with its guards met, one of its characters, or of those its pattern looks at beside it, was written by its own pass or by a later one |
| `MaskReach.UnwrittenIsTheText` | corpus/incident_mask.py:285-288 | characters of a masked text that follow each other and were not written follow each other in the text |
| `MaskPlaces.ShownIff` | corpus/incident_mask.py:235-263 | the pattern of a name fires exactly where a text shows it: a domain or a tier A account anywhere, tiers B and C between their guards, and tier D in five places: after `/home/` or `/home` with a digit before a segment end, within `_home_` and `_`, before `_public_html`, and as `php` with two digits before `.conf` |
| `MaskPlaces.NothingIsLeftAlone` | corpus/incident_mask.py:246-288 | wherever a masked text shows a name of any tier, a character of it or of the place it stands in was written by masking |
| `MaskPlaces.NothingShownNothingMasked` | corpus/incident_mask.py:246-288 | a text that shows no name comes out as it is |
| `MaskPlaces.WritesIffShown` | corpus/incident_mask.py:246-288 | masking writes into a text if and only if some name is shown in it |
| `MaskReach.PassReaches` | corpus/incident_mask.py:285-288 | a pass reaches its own names, and what earlier passes reached stays reached |
| `MaskClear.SpelledShowsIt` | corpus/incident_mask.py:246-249 | what it is for a name to meet a pseudonym at an offset: in the text the two make, laid over each other, the pattern finds the name with its guards met if and only if they agree where they overlap and what of the pseudonym stands beside the name satisfies the guards |
| `MaskClear.PassKeepsWhole` | corpus/incident_mask.py:285-287 | a pass that matches nothing put before leaves everything put whole, its own replacements too, each with the breaks beside it that its pass asked for |
| `MaskClear.MeetsWhatItTouches` | corpus/incident_mask.py:285-288 | a name found on a character of a replacement meets that replacement |
| `MaskClear.NoNameIsLeft` | corpus/incident_mask.py:285-288 | with no keep-list and no empty replacement: where no name meets what masking writes, and none is let in past a guard by what its own pass or a later one writes beside it, no text comes out with a domain, or an account of the tiers A to C, standing in it with its guards met |
| `MaskClear.ClearMapLeavesNoName` | corpus/incident_mask.py:235-292 | the same of the row masker itself, for every text but a sha256 field, under a condition on the names and pseudonyms of the map alone |
| `MaskClear.PlainPseudonymsClear` | corpus/incident_mask.py:117-128 | the condition holds where no name can be laid over a pseudonym, agreeing on the overlap, and every pseudonym begins with a letter and ends with a letter or digit |
| `MaskClear.ClearMapSettles` | corpus/incident_mask.py:273-292 | under the condition, with no name of tier D, masking a masked text changes nothing |
| `MaskExact.PassLeavesIff` | corpus/incident_mask.py:285-287 | for a pass without guards whose names are none inside another: some text comes out with a name of it if and only if some name, laid over a replacement, agrees with it wherever they overlap, and what of the name is before it, followed by the account replaced, begins no name |
| `MaskExact.TierALeavesIff` | corpus/incident_mask.py:246-292 | the same of the row masker, read off the map, where all names are accounts of tier A |
| `MaskWitness.NameMetIsLeft` | corpus/incident_mask.py:285-288 | a map of two accounts with the tiers measured for them, and a row in which copied text and a pseudonym spell one of the names |
| `MaskWitness.NameBehindIsLeft` | corpus/incident_mask.py:247-247 | no name meets a pseudonym, one ends in a hyphen, and the name behind it is left |
| `MaskWitness.NameAheadIsLeft` | corpus/incident_mask.py:248-248 | no name meets a pseudonym, one begins with a digit, and the name before it is left |
| `MaskKept.OnlyKeptSpansHoldNames` | corpus/incident_mask.py:280-291 | with a keep-list, where every kept span comes through and the condition holds: nothing that lies in a gap between kept spans, guarded sides included, shows a wide pattern a name |
| `MaskKept.OnlyKeptSpansHoldMappedNames` | corpus/incident_mask.py:273-292 | the same of the row masker itself, under conditions on the map and on the unmasked text |
| `MaskRows.RefusedIffMerges` | corpus/incident_mask.py:328-350 | a row is refused exactly where some object in it, any number of items and fields down, has two different keys that are masked to one |
| `MaskRows.EveryStringMasked` | corpus/incident_mask.py:328-350 | the strings of a masked row, keys included, at every depth, are the masked strings of the row |
| `MaskRows.FieldAt` | corpus/incident_mask.py:342-349 | what was under a key stands masked under the masked key |
| `MaskRows.NoFieldLost` | corpus/incident_mask.py:342-349 | a masked object has as many keys as it had |
| `MaskRows.ValueAt` | corpus/incident_mask.py:328-350 | every value of a row stands masked where it stood: strings masked, lists as long, objects as large, anything else as it was |
| `KeepHoles.CutsAreTheText` | corpus/incident_mask.py:280-284 | the gaps and kept spans, put together, are the text |
| `KeepHoles.Stash` | corpus/incident_mask.py:280-284 | the stashing pass leaves numbered holes between the gaps and remembers the spans in order |
| `KeepHoles.SubKeepsHoles` | corpus/incident_mask.py:285-287 | a pass whose names hold no NUL and are not all digits leaves every hole in place; an all-digit gap stays as it is |
| `KeptSpans.PassesKeepHoles` | corpus/incident_mask.py:285-288 | so do all the passes together |
| `KeptSpans.RestoredIffUnambiguous` | corpus/incident_mask.py:289-291 | for spans that are not only digits, restoring gives every span its place exactly when no two that follow each other are separated by the number of an earlier one |
| `KeptSpans.FalseHoleExample` | corpus/incident_mask.py:289-291 | three kept spans, the last two separated by `0`, are not restored |
| `IncidentMask.KeptSpansSurvive` | corpus/incident_mask.py:273-291 | kept spans come through masking verbatim and in order, under that condition read off the unmasked text |
| `IncidentMask.KeptSpansSurviveIff` | corpus/incident_mask.py:273-291 | the same as an equivalence, for keep entries that are not only digits |
| `ContentIdentifiers.Deterministic` | corpus/content_mask.py:104-120 | the loop over the digest and its re-hashes gives the specified letters, `n` of them, all of the alphabet |
| `ContentIdentifiers.HostnameKeepsShape` | corpus/content_mask.py:176-189 | a masked host name keeps its length, its dots and its public suffix |
| `ContentIdentifiers.ReplacementIsHoleSafe` | corpus/content_mask.py:258-268 | every replacement has the length of what it replaces, adds no NUL and is never all digits unless that was |
| `ContentIdentifiers.SameNameSameReplacement` | corpus/content_mask.py:104-189 | one account or host name in two letter cases gets replacements that differ in letter case only |
| `ReplacementRules.ReplacementIs` | corpus/content_mask.py:104-268 | what an identifier is replaced by, character by character: a host name label by label but for a public suffix of one or two labels, any other name as one word; seven characters or more begin with `mask`, the rest are letters drawn byte by byte from the hash of the lower-cased word and its re-hashes; all in the case of the original |
| `ContentIdentifiers.Clashes` | corpus/content_mask.py:637-654 | nothing is reported exactly when no two different names share a replacement |
| `ContentMasker.ContentMasker.constructor` | corpus/content_mask.py:207-212 | a new masker has logged no change |
| `ContentMasker.ContentMasker.Replacement` | corpus/content_mask.py:258-268 | one identifier replaced at equal length, and one entry added to the log |
| `ContentMasker.ContentMasker.Substitute` | corpus/content_mask.py:285-289 | one pattern over the text: the substitution, and one log entry per match in order |
| `ContentMasker.ContentMasker.MaskIdentifiers` | corpus/content_mask.py:273-295 | the whole pass, refused if the length moved, and exactly what it adds to the log |
| `ContentMasker.KeptSpansStayInPlace` | corpus/content_mask.py:273-295 | the length is kept and every kept span stands at its own offset, under the condition on hole numbers |
| `ContentMasker.KeptSpansStayInPlaceIff` | corpus/content_mask.py:273-295 | for keep entries that are not only digits that condition is exact, and where it fails a NUL of a hole is left in the sample |
| `ContentMasker.LengthTestIsBlind` | corpus/content_mask.py:288-291 | where every kept span is as long as its hole the length test refuses nothing, restored or not |
| `ContentMasker.CorruptedAtItsLength` | corpus/content_mask.py:273-295 | keeping `abc`, the text `abcxabc0abc` comes out corrupted at its own length |
| `ContentMasker.HoleInTextIsFilled` | corpus/content_mask.py:273-295 | a hole that a text holds itself, after a kept span, is filled with that span too |
| `ContentMasker.HoleInTextCorrupts` | corpus/content_mask.py:273-295 | a sample of six characters that holds one comes out changed at its own length, under a map without names |
| `Clearance.ReasonedByIsNotJudged` | corpus/clearance.py:96-124 | two records that differ in `reasoned_by` only give the same answer for every row and gate |
| `Clearance.DigestIsTheFinding` | corpus/clearance.py:145-157 | two digests are equal exactly when the recorded verdict and the evidence are |
| `Clearance.ProvKeyParts` | corpus/clearance.py:160-164 | two pins are equal exactly when their tools and map parts are |
| `Clearance.AppliesIffUnmoved` | corpus/clearance.py:187-215 | a clearance that applied applies to a later state of the row exactly if finding and pin are the same, the gate is recorded and no tag forbids it |
| `ClearanceRules.AppliesIff` | corpus/clearance.py:167-215 | a clearance applies exactly if it names one of the four gates and this one, says by whom, when, for what reason and on what digest, carries a stamp with tools, no `pii` or `content` tag is on the row, the gate is recorded, the digest is that of the recorded verdict and evidence, and the pin is the one of the row |
| `ClearanceRules.EvidenceIs` | corpus/clearance.py:77-142 | the evidence of a gate is what is recorded under its own keys, in the masking block or else among its categories |
| `ClearanceRules.ApplicableIff` | corpus/clearance.py:241-248 | the clearance found for a gate is the first of the list that applies, and none is found only if none does |
| `ClearFinding.Build` | corpus/clear-finding.py:102-179 | the refusals in order, the loop over earlier clearances, the duplicate and the superseded record |
| `SigningRules.SignedIff` | corpus/clear-finding.py:102-163 | a clearance is signed if and only if the gate is one of the four, the three texts say something, no tag forbids it, the gate is recorded and did not pass, tools and map of the stamp are those of now, the reason names no customer, and no clearance judges this finding under this pin; a refusal tells the first of these that fails |
| `SigningRules.SignedHolds` | corpus/clear-finding.py:164-179 | what is signed: its seven keys, the texts trimmed, over the finding and the pin of the row, superseding the last clearance over the same finding and nothing else |
| `ClearFinding.SignedIsReadable` | corpus/clear-finding.py:165-173 | a signed clearance is well formed, keyed to the finding and pinned to the provenance the row holds |
| `ClearFinding.SignedAppliesAtOnce` | corpus/clear-finding.py:102-179 | it applies at once to its own gate and no other; no earlier one applied there, and it is the one found |
| `ClearFinding.Backfill` | corpus/clear-finding.py:207-224 | the loop over the copied row fills `reasoned_by` for the applying clearances without one, and reports exactly those |
| `ClearFinding.BackfillChangesNoAnswer` | corpus/clear-finding.py:207-224 | no clearance starts or stops applying to any gate |
| `ClearFinding.BackfillIsIdempotent` | corpus/clear-finding.py:207-224 | a second backfill with the same value changes nothing |
| `SigningRules.BackfilledAt` | corpus/clear-finding.py:207-224 | a backfill adds the trimmed text to exactly the clearances that clear their own gate and do not say who drafted them; every other clearance and key is as it was |
| `ClearanceChecks.AdditiveIff` | corpus/clear-finding.py:265-279 | the assertion accepts exactly the row with one clearance appended and nothing else moved |
| `ClearanceChecks.BackfilledIff` | corpus/clear-finding.py:227-262 | the assertion accepts exactly the rows equal outside `clearances` whose clearances, read with `.get`, gained the asked-for value where there was none |
| `ClearanceChecks.BackfillPasses` | corpus/clear-finding.py:207-262 | every backfill passes its own assertion |
| `ClearanceChecks.AcceptedBackfillChangesNoAnswer` | corpus/clear-finding.py:227-262 | whatever that assertion accepts, by any writer, changes no answer |
| `ClearanceRuns.RunKeepsDistinct` | corpus/clear-finding.py:144-163 | over every history gate, digest and pin together stay distinct |
| `ClearanceRuns.OneAnswerPerGate` | corpus/clearance.py:187-248 | from a row without clearances, over every history: at most one clearance applies to a gate, and none while the row carries `pii` or `content` |
| `ClearanceRuns.RunAppendsOnly` | corpus/clear-finding.py:387-400 | over every history each earlier clearance stays at its place with all its fields, but for a `reasoned_by` added where there was none |
| `ClearanceRuns.WritesAreNeverRefused` | corpus/clear-finding.py:393-396 | the assertion before a write never stops a signature that was built or a backfill that was made |
| `ClearanceRuns.SignedThenApplies` | corpus/clearance.py:187-215 | a clearance signed at some moment of a history applies later exactly when finding and pin are back to what was judged |
| `GateEvidence.Compare` | corpus/gate_evidence.py:272-293 | the loop over the gates: each recorded gate's outcome; the worst is what moved first, in the order of the gates; agreement exactly when every recorded gate was measured and agrees, and `cannot-check` exactly when one was not measured and all others agree |
| `GateEvidenceRules.ComparedGateIs` | corpus/gate_evidence.py:230-269 | one gate: nothing is owed where it is not recorded; the classes of the verdicts come before the evidence; the fields reported as moved, and as measured but not recorded, are exactly those |
| `GateEvidence.SameEvidenceIff` | corpus/gate_evidence.py:296-333 | the repaired block keeps the evidence exactly when no recorded field moved, bar two hollow cases |
| `GateEvidence.SameFindingIff` | corpus/gate_evidence.py:230-333 | the digest survives the repair if and only if the comparison says agrees, the record is not an explicit null, and it is not a block of nulls measured as no block |
| `GateEvidence.RecordedNullMovesTheDigest` | corpus/gate_evidence.py:296-333 | a block that records an explicit null: the comparison says agrees and the digest moves |
| `GateEvidence.HollowBlockMovesTheDigest` | corpus/gate_evidence.py:296-333 | a recorded block of nulls and no block measured: the comparison says agrees and the digest moves |
| `GateEvidence.RepairKeepsClearance` | corpus/gate_evidence.py:296-333 | an applying clearance still applies after the repair under the same pin exactly when the digest survives |
| `ControlOnly.Walk` | corpus/field-provenance.py:338-346 | the worklist search ends and finds exactly the nodes some path through no blocked node leads to |
| `ControlOnly.FindControlOnly` | corpus/field-provenance.py:321-352 | exactly the functions that are no root, are reached from a root, and are reached from no seed along a path that avoids the roots |
| `CensusPaths.MentionsIff` | corpus/field-provenance.py:283-297 | the names a node mentions are exactly those some node within it has, at the end of a path of child numbers |
| `CensusPaths.ControlNameIff` | corpus/field-provenance.py:275-275 | a control is a name one of whose parts between underscores is `inject` or `selftest` |
| `CensusPaths.ControlOnlyIff` | corpus/field-provenance.py:321-352 | control-only, said of the syntax tree: a chain of definitions that name the next leads to the function from a control, and none without a control from a function named at module level, in another module, or by no other |
| `ControlOnly.NamingMoreSpares` | corpus/field-provenance.py:239-249 | naming more in other modules only takes functions out of the result |
| `ControlOnly.OnlyControlsNameIt` | corpus/field-provenance.py:239-249 | a function of the result is named only from control suites and from functions no seed reaches, and neither at module level nor elsewhere |
| `FieldCensus.KeyPositions` | corpus/field-provenance.py:370-448 | the walk over the tree collects exactly the keys written outside controls and all keys read |
| `CensusPaths.KeysIff` | corpus/field-provenance.py:370-448 | a module writes a key exactly if some statement puts it, with no control on the way down to it and not as the definition of a control-only function; it reads every key it gets anywhere |
| `CensusPaths.ElsewhereIff` | corpus/field-provenance.py:300-318 | what counts as named in other modules |
| `FieldCensus.NamingMoreWritesMore` | corpus/field-provenance.py:383-389 | naming more elsewhere can only add to what a module is taken to write |
| `FieldCensus.ScanModules` | corpus/field-provenance.py:512-545 | each field is credited to exactly the modules that write it, and to those that read it |
| `FieldCensus.ClassifyField` | corpus/field-provenance.py:653-686 | the state printed for a field is the one its modules give it |
| `CensusPaths.FieldStateIff` | corpus/field-provenance.py:653-686 | a field is written if some module writes its key, read-only if none does and some module reads it, and orphan otherwise |
| `FieldCensus.FieldsMoveTowardsWritten` | corpus/field-provenance.py:512-686 | with more named elsewhere, or more modules, no field moves towards ORPHAN |
| `FieldCensus.AddingAModule` | corpus/field-provenance.py:512-545 | adding a file to the directory, wherever it sorts, moves no field towards ORPHAN |
| `FieldCensus.ImportingMore` | corpus/field-provenance.py:300-318 | nor does one more imported name in one module |
| `DocRegions.LocateIff` | corpus/doc-figures.py:453-473 | a region is found exactly where each of its two markers is the only one and the END marker is on a later line |
| `DocRegions.MarkersShareNoLine` | corpus/doc-figures.py:64-67 | markers on one line are never a region, because the BEGIN marker runs to the last arrow of its line |
| `DocRegions.StrippedText` | corpus/doc-figures.py:476-478 | the lines kept are those `strip` and `split` leave of the text |
| `DocRegions.TextOfRegion` | corpus/doc-figures.py:476-483 | what is done to the lines is what the program does to the text: the pieces around the markers, the body read by strip and split, and the text written |
| `FiguresOnDisk.FoundIff` | corpus/doc-figures.py:453-473 | a region is found exactly where the only line with its BEGIN marker is above the only one with its END marker, from behind the last arrow of the first to where the second begins |
| `FiguresOnDisk.LostIff` | corpus/doc-figures.py:460-472 | when it is not found, the reason given is the first that applies |
| `FiguresOnDisk.BodyIff` | corpus/doc-figures.py:476-478 | the body is the lines in between without the empty ones at both ends |
| `DocFigures.ReadBackIff` | corpus/doc-figures.py:476-483 | the body read back is the lines written if and only if no line holds a newline and their ends are not empty, or there is the one empty line |
| `DocFigures.TextReadBackIff` | corpus/doc-figures.py:476-483 | the same of the text in the file |
| `DocFigures.OutsideUntouched` | corpus/doc-figures.py:481-483 | all text before and after the body is what it was |
| `DocFigures.OtherRegionMoves` | corpus/doc-figures.py:481-483 | another region of the document keeps its lines and moves by the difference in length |
| `DocFigures.Run` | corpus/doc-figures.py:624-686 | the loop in both modes: the files it leaves and the number of problems it counts |
| `FiguresOnDisk.RunIsTurns` | corpus/doc-figures.py:624-686 | a run is one turn per region: when writing, a region whose lines are not there up to white space gets them between its markers, and nothing else changes; the number returned is that of the regions that could not be read or, when checking, did not hold their lines |
| `FiguresOnDisk.CheckCounts` | corpus/doc-figures.py:663-668 | a check counts the regions whose rendered lines are not on disk, line for line up to white space at the ends; it counts none if and only if all are |
| `FiguresOnDisk.WriteSettles` | corpus/doc-figures.py:676-686 | after a write every region holds its lines, the very lines rendered where it did not hold them before and what it held where it did; a check then counts nothing and a second write changes nothing |
| `DocFigures.OneWriteSettles` | corpus/doc-figures.py:624-686 | for regions that lie apart, carry no markers of each other and render whole lines with firm ends, one write makes every check agree and a second write changes no file |
| `FamilyEvidence.RulesetDetermined` | corpus/family_evidence.py:502-528 | the clustering answers whether every population row sharing a family row's key is in the family, and returns the keys touched |
| `FamilyEvidence.DeterminedIffDecided` | corpus/family_evidence.py:502-528 | for a family inside the population: if some set of keys decides membership for every row it is determined, and conversely wherever no sha256 of the family stands under a foreign key too |
| `FamilyEvidence.UnionIsDetermined` | corpus/family_evidence.py:502-528 | two such families together are such a family |
| `FamilyEvidence.DispersionDetail` | corpus/family_evidence.py:381-408 | the counters: detected members, different rule-sets, the count of the most common rule, and whether the rule-sets intersect |
| `FamilyEvidence.TopIsAllIffIntersect` | corpus/family_evidence.py:384-399 | the most common rule is in every detected member if and only if the rule-sets have a rule in common |
| `FamilyEvidence.BelowFloorIsAPile` | corpus/family_evidence.py:378-416 | a family below the floor has no rule in common and at least three distinct rule-sets |
| `FamilyEvidence.PileLikeIff` | corpus/family_evidence.py:406-416 | a family is below the floor exactly if 20000 times its top rule count is less than 9999 times the detected members |
| `FamilyRules.PileIff` | corpus/family_evidence.py:610-640 | a family is refused as a pile exactly if, of its assigned rows that expect a rule, no rule is expected by as much as half, to four places |
| `FamilyEvidence.JustUnderHalfIsSpared` | corpus/family_evidence.py:406-416 | the share is rounded first: a family of 10001 rows in which 5000 share the most common rule is under half and is not refused |
| `FamilyEvidence.VerifyMarkers` | corpus/family_evidence.py:531-577 | no problem if and only if there are markers, all ASCII, all bytes are there, every counter reaches two and every member carries a marker |
| `FamilyRules.EvidenceIff` | corpus/family_evidence.py:531-577 | markers pass exactly if there are some, all ASCII, every member's bytes hold one of them, and each stands in two members, or in one if it is listed twice |
| `FamilyEvidence.TallyIsProduct` | corpus/family_evidence.py:559-565 | the counter of a marker is the number of rows that carry it times the number of times it is listed |
| `MarkerLists.KeepsPromiseIff` | corpus/family_evidence.py:534-571 | a list of ASCII markers guarantees, for every family and all bytes that pass, that each marker is in two members, if and only if every marker listed more than once is part of one listed once |
| `FamilyEvidence.ListedTwicePasses` | corpus/family_evidence.py:559-570 | one member and one marker listed twice pass |
| `AssignFamily.CollectMembers` | corpus/assign-family.py:252-276 | the members of a proposal, or what is wrong with its list of hashes |
| `AssignFamily.CheckProposal` | corpus/assign-family.py:238-285 | a proposal has no refusal exactly when its wording, hashes and markers are sound |
| `AssignFamily.JudgeFamilies` | corpus/assign-family.py:297-304 | every family is judged on the union of its proposals |
| `AssignFamily.SortedMarkers` | corpus/assign-family.py:193-193 | the markers recorded are those of the proposal, repeats and all, in code point order |
| `AssignFamily.ApplyToRow` | corpus/assign-family.py:176-216 | the family and its evidence record are set and every other key of the row is as it was |
| `AssignFamily.Audit` | corpus/family_evidence.py:610-636 | exactly the families of the session that are dispersed like a pile |
| `AuditScope.AuditDetermined` | corpus/family_evidence.py:613-634 | the audit's loop: for every family of the session, whether it is a function of the rule-set over the rows still without a family and those any session assigned |
| `AuditScope.AuditAsks` | corpus/family_evidence.py:605-634 | the audit's question row by row: every row still to be reviewed, or of the reviewed bucket and holding an evidence record, that has the key of a row of the family has the sha256 of a row of the family |
| `AuditScope.AuditAgreesIff` | corpus/family_evidence.py:613-634 | after a session is written the audit calls a family a function of the rule-set if and only if its validation did and no row an earlier session assigned shares a key with it, unless under the sha256 of one of its rows |
| `AssignSession.BuildPost` | corpus/assign-family.py:318-326 | the rows the session would leave: each rewritten under the proposal that lists it, in place |
| `AssignSession.Validate` | corpus/assign-family.py:219-335 | no refusal if and only if every proposal is sound, some family is not a function of the rule-set (or none has members), and no family of the result is a pile; judged on the rows it would leave |
| `SessionRules.AcceptedIff` | corpus/assign-family.py:219-335 | a session is accepted exactly if no wording is refused, no hash is named twice, each is that of one reviewable row, every proposal has its evidence in the bytes, some family with rows leaves out a reviewable row that shares a key with one of its own (or none has rows), and no family of the result is a pile |
| `SessionRules.AfterIs` | corpus/assign-family.py:176-216 | each row a session lists is written under the one proposal that lists it: its family, and an evidence record of twelve keys with what was found out about the family; no other row and no other key changes |
| `AssignSession.Index.Apply` | corpus/assign-family.py:338-353 | all or nothing: a refused session leaves the rows as they were |
| `AssignSession.AcceptedSaysSomething` | corpus/assign-family.py:290-316 | an accepted session with members has a family that no predicate on the rule-set decides |
| `AssignSession.RestatingSessionIsRefused` | corpus/assign-family.py:290-316 | a session in which the rule-set decides every family, judged on the union of its proposals, is refused |
| `AssignSession.WriteTouchesNothingElse` | corpus/assign-family.py:176-216 | an accepted write changes only rows that were reviewable and without a family, and of those only family and evidence |

## Left out

What the model abstracts from the tools it covers:

- `b64decode(..., validate=True)` is the strict RFC 4648 decoder: a pad where no group is open is refused. Python versions differ on such runs, which changes a report entry and never the bytes.
- The text masker given to the layer repair is a pure function on byte strings that may refuse. One that returns a character outside latin-1 makes the whole pass raise, which is not modelled.
- SHA-256, and the twelve characters of it a finding digest keeps, are injective: a digest is modelled by what it was taken over.
- JSON numbers are integers; Python's `True == 1` and floats are not modelled. Values a function would raise a `TypeError` on (a number for `sensitivity`, a list for `masking`) read as absent.
- Letter case is ASCII, and so are digits and white space in patterns. Python's Unicode folding also matches a few letters no name contains.
- Regular expressions other than literal alternations with the guards named here: secrets, e-mail addresses, slots, comments and IP addresses (`SlotMasker`, `SecretMasker`).
- `ContentMasker._demote_stock_words`: re-tiers stored names against a vocabulary by the rule of `tiers`.
- Pseudonyms used as substitution templates hold no backslash.
- MaskClear.ClearMapLeavesNoName: one way, for maps of more than one pass. Where a name meets a pseudonym there, whether some text shows it depends on what the other passes make of that text first, before and after. `MaskExact` has both ways for one pass without guards, and `MaskWitness` a map for each clause.
- Names of tier D are masked in five places only, by design; `MaskPlaces.NothingIsLeftAlone` covers those, and `MaskClear` the names masked anywhere.
- KeptSpans and what is said of kept spans is about texts without NULs; `ContentMasker.HoleInTextIsFilled` says what a hole in the text does, and which such texts come through is not characterised.
- Of `publish-rows.py` the gate's answer, the form rules and the staged shards are given. A row without a `sha256` raises there, and reads here as one whose `sha256` is null.
- Lone surrogates in strings, and index lines that do not parse as JSON: both raise before any table is filled.
- A file's `stamp` stands for its inode and modification time together.
- Lock files' text, file modes, `fsync` and crash durability. In the interleaving model a process that gives up, fails or is killed is one step that releases its locks; the deadline is modelled in `IndexIo.AcquireLock` alone, with time in units of the sleep.
- Callers of `build` and `open_ro` that name the sources themselves; sources are those present.
- SQLite: tables are sequences of records, queries filter them in `id` order; `ANALYZE`, pragmas and schema text have no counterpart.
- `gate_result`, the leak predicate, the wording checks of a proposal and the cluster key are function parameters, as are sample bytes by sha256.
- Where `clearances` holds something that is not a list, signing raises; only rows with a list, or none, are signed.
- Syntax trees carry the names, keys and definitions the census reads from Python's; parsing is not modelled, nor is the table of known orphans printed beside a field.
- The public suffixes, generic labels and detection-conditioned reasons are parameters; nothing depends on which they are.
- How a family's dispersion is written into its evidence record is a function parameter, and the sampling frame is a given value; neither is read by what is proved.
- The share of the most common rule is rounded half up in exact arithmetic; a binary fraction at an exact tie may round the other way.
- The guards on rates quoted in prose (`rate_violations`, `miss_violations`) and the names `drift` prints.

Drivers, decision tables, foreign calls and user interface that are not modelled:

- `shard-gate.py`, `verify-content-mask.py`, `make-summary.py`, `mask-samples.py`, `infected_mask.py`: gates, summaries and drivers.
- `deobfuscate.py`, `import-*.py`, `classify-known-miss.py`, `fp-population.py`, `keep-credential.py`, `drop-field.py`, `promote-gate.py`, `control-suites.py`: decision tables, decoders and one-off writers.
- Subprocess scanning, directory walks, archives, `zlib`, argument parsing and printed reports; the `--inject` and `--selftest` suites.
- The C++ benchmark, fuzzing stubs and command-line wrapper.
