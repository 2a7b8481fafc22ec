/** The manifest builder of `scripts/generate_yaml_from_dir.py`: which files
    of the directory walk are motion archives, how an absolute path becomes a
    motion identifier, how one manifest entry is built, what is read from an
    archive, and the loop that appends one entry per successful archive with
    a running index. */
module Manifest {
  import opened Wrappers
  import opened Strings

  // ---------------------------------------------------------------------
  // Data model
  // ---------------------------------------------------------------------

  /** One named field of an `.npz` archive, described by what the builder
      asks of it: `asReal` is the value `float(field)` returns (`None` when
      the conversion raises), `leadingDim` is `field.shape[0]` (`None` when
      the array has no axis and the lookup raises). */
  datatype Field = Field(asReal: Option<real>, leadingDim: Option<nat>)

  /** What `np.load` gives for a path: either it raises, or it yields the
      archive's fields by name. */
  datatype Archive = Unreadable | Archive(fields: map<string, Field>)

  /** A file produced by the directory walk: its absolute path, its base
      name, and the archive stored there. */
  datatype Candidate = Candidate(absPath: string, name: string, archive: Archive)

  /** What is extracted from a readable archive. */
  datatype Metadata = Metadata(fps: real, frames: nat, duration: real)

  /** Why reading an archive raised. */
  datatype Cause = CannotOpen | NotConvertible | NoLeadingAxis | ZeroFrameRate

  /** Why a candidate produced no entry; every case is caught inside the
      loop, so none of them ends the scan. */
  datatype Skip = MissingFrameRate | MissingPoses | ArchiveReadError(cause: Cause)

  /** The `{"start": ..., "end": ...}` mapping of a sub-motion. */
  datatype Timings = Timings(start: real, end: real)

  /** One element of `sub_motions`: `{"timings": ...}`. */
  datatype SubMotion = SubMotion(timings: Timings)

  /** One manifest entry, in the key order it is written in: `file`, `fps`,
      `weight`, `idx` and the optional `sub_motions`. */
  datatype Entry = Entry(file: string, fps: real, weight: real, idx: int,
                         subMotions: Option<seq<SubMotion>>)

  /** The document `{"motions": [...]}` that is handed to the serializer. */
  datatype Document = Document(motions: seq<Entry>)

  const ARCHIVE_EXTENSION := ".npz"
  const MOTION_EXTENSION := ".motion"
  const PRIMARY_RATE_KEY := "mocap_framerate"
  const FALLBACK_RATE_KEY := "mocap_frame_rate"
  const POSES_KEY := "poses"

  // ---------------------------------------------------------------------
  // File name filter
  // ---------------------------------------------------------------------

  /** The walk keeps a file when its name ends with `.npz` and ends with
      neither `stagei.npz` nor `shape.npz`. */
  predicate IsMotionArchive(name: string) {
    EndsWith(name, ARCHIVE_EXTENSION)
    && !EndsWith(name, "stagei.npz")
    && !EndsWith(name, "shape.npz")
  }

  /** The filter, read on the stem: a name is kept exactly when its last four
      characters are `.npz` and what precedes them ends with neither `stagei`
      nor `shape`. */
  lemma IsMotionArchiveByStem(name: string)
    ensures IsMotionArchive(name) <==>
            (|name| >= 4 && name[|name| - 4..] == ".npz"
             && !EndsWith(name[..|name| - 4], "stagei")
             && !EndsWith(name[..|name| - 4], "shape"))
  {
    EndsWithConcat(name, "stagei", ".npz");
    EndsWithConcat(name, "shape", ".npz");
    assert "stagei" + ".npz" == "stagei.npz";
    assert "shape" + ".npz" == "shape.npz";
  }

  /** A plain archive name is kept. */
  lemma FilterKeepsPlainArchive()
    ensures IsMotionArchive("take1.npz")
  {
  }

  /** The exclusions apply to any name ending in them, not only to names with
      an underscore before them. */
  lemma FilterRejectsAuxiliary()
    ensures !IsMotionArchive("x_shape.npz") && !IsMotionArchive("reshape.npz")
    ensures !IsMotionArchive("a_stagei.npz") && !IsMotionArchive("take1_shape.npz")
  {
    assert "x_shape.npz"[2..] == "shape.npz";
    assert "reshape.npz"[2..] == "shape.npz";
    assert "a_stagei.npz"[2..] == "stagei.npz";
    assert "take1_shape.npz"[6..] == "shape.npz";
  }

  /** The extension test is case-sensitive and looks at the very end. */
  lemma FilterNeedsExactExtension()
    ensures !IsMotionArchive("a.NPZ") && !IsMotionArchive("take1.npz.bak")
  {
  }

  // ---------------------------------------------------------------------
  // Identifier normalisation
  // ---------------------------------------------------------------------

  /** The characters that are turned into `_`. */
  predicate IsSeparator(ch: char) {
    ch == '-' || ch == ' ' || ch == '(' || ch == ')'
  }

  /** What the separator pass makes of one character. */
  function Underscored(ch: char): char {
    if IsSeparator(ch) then '_' else ch
  }

  /** The four single-character `replace` calls, in source order. */
  function ReplaceSeparators(s: string): string {
    ReplaceAll(ReplaceAll(ReplaceAll(ReplaceAll(s, "-", "_"), " ", "_"), "(", "_"), ")", "_")
  }

  /** The whole chain: `.npz` becomes `.motion` wherever it occurs, then the
      separators become `_`. */
  function Normalize(path: string): string {
    ReplaceSeparators(ReplaceAll(path, ARCHIVE_EXTENSION, MOTION_EXTENSION))
  }

  /** The separator pass works position by position: the length is kept,
      separators become `_`, and every other character stays. */
  lemma ReplaceSeparatorsAt(s: string)
    ensures |ReplaceSeparators(s)| == |s|
    ensures forall i :: 0 <= i < |s| ==>
              ReplaceSeparators(s)[i] == Underscored(s[i])
  {
    var s1 := ReplaceAll(s, "-", "_");
    var s2 := ReplaceAll(s1, " ", "_");
    var s3 := ReplaceAll(s2, "(", "_");
    ReplaceCharAt(s, '-', '_');
    ReplaceCharAt(s1, ' ', '_');
    ReplaceCharAt(s2, '(', '_');
    ReplaceCharAt(s3, ')', '_');
  }

  /** The separator pass neither creates nor destroys an occurrence of a
      pattern that has no separator and no `_` in it. */
  lemma ReplaceSeparatorsKeepsOccurrence(s: string, pat: string, i: int)
    requires forall k :: 0 <= k < |pat| ==> !IsSeparator(pat[k]) && pat[k] != '_'
    ensures OccursAt(ReplaceSeparators(s), pat, i) <==> OccursAt(s, pat, i)
  {
    var r := ReplaceSeparators(s);
    ReplaceSeparatorsAt(s);
    if 0 <= i && i + |pat| <= |s| {
      if OccursAt(r, pat, i) {
        forall j | i <= j < i + |pat| ensures s[j] == r[j] {
          assert r[j] == r[i..i + |pat|][j - i] == pat[j - i];
        }
        assert s[i..i + |pat|] == r[i..i + |pat|];
      }
      if OccursAt(s, pat, i) {
        forall j | i <= j < i + |pat| ensures s[j] == r[j] {
          assert s[j] == s[i..i + |pat|][j - i] == pat[j - i];
        }
        assert s[i..i + |pat|] == r[i..i + |pat|];
      }
    }
  }

  /** A normalised identifier contains none of `-`, space, `(`, `)` and no
      `.npz` anywhere in the path. (That each `.npz` becomes `.motion`, inner
      ones included, is `NormalizeInterior`.) */
  lemma NormalizeClean(path: string)
    ensures forall i :: 0 <= i < |Normalize(path)| ==> !IsSeparator(Normalize(path)[i])
    ensures !Contains(Normalize(path), ".npz")
  {
    var s1 := ReplaceAll(path, ARCHIVE_EXTENSION, MOTION_EXTENSION);
    assert MOTION_EXTENSION[..4][1] != ARCHIVE_EXTENSION[1];
    ReplaceAllRemoves(path, ARCHIVE_EXTENSION, MOTION_EXTENSION);
    ReplaceSeparatorsAt(s1);
    forall i ensures !OccursAt(Normalize(path), ".npz", i) {
      ReplaceSeparatorsKeepsOccurrence(s1, ".npz", i);
    }
  }

  /** Outside `.npz` occurrences normalisation touches only the separators:
      the length is kept and every other character is left as it was. */
  lemma NormalizeChangesOnlySeparators(path: string)
    requires !Contains(path, ".npz")
    ensures |Normalize(path)| == |path|
    ensures forall i :: 0 <= i < |path| ==>
              Normalize(path)[i] == Underscored(path[i])
  {
    ReplaceAllIdentity(path, ARCHIVE_EXTENSION, MOTION_EXTENSION);
    ReplaceSeparatorsAt(path);
  }

  /** Identifiers collide: two paths without `.npz` normalise to the same
      identifier exactly when they have the same length and agree at every
      position once separators are read as `_`. */
  lemma NormalizeCollision(a: string, b: string)
    requires !Contains(a, ".npz") && !Contains(b, ".npz")
    ensures Normalize(a) == Normalize(b) <==>
            |a| == |b| && forall i :: 0 <= i < |a| ==> Underscored(a[i]) == Underscored(b[i])
  {
    NormalizeChangesOnlySeparators(a);
    NormalizeChangesOnlySeparators(b);
    if Normalize(a) == Normalize(b) {
      forall i | 0 <= i < |a| ensures Underscored(a[i]) == Underscored(b[i]) {
        assert Normalize(a)[i] == Normalize(b)[i];
      }
    }
  }

  /** Normalising an already normalised identifier returns it unchanged. */
  lemma NormalizeIdempotent(path: string)
    ensures Normalize(Normalize(path)) == Normalize(path)
  {
    var id := Normalize(path);
    NormalizeClean(path);
    NormalizeChangesOnlySeparators(id);
  }

  /** A path ending in `.npz` (as every kept file does) gives an identifier
      ending in `.motion`. */
  lemma NormalizeEndsWithMotion(path: string)
    requires EndsWith(path, ARCHIVE_EXTENSION)
    ensures EndsWith(Normalize(path), MOTION_EXTENSION)
  {
    var stem := path[..|path| - 4];
    assert path == stem + ARCHIVE_EXTENSION;
    ReplaceAllSuffix(stem, ARCHIVE_EXTENSION, MOTION_EXTENSION);
    KeepsMotionSuffix(ReplaceAll(stem, ARCHIVE_EXTENSION, MOTION_EXTENSION));
  }

  /** The separator pass leaves a trailing `.motion` in place. */
  lemma KeepsMotionSuffix(t: string)
    ensures ReplaceSeparators(t + MOTION_EXTENSION) == ReplaceSeparators(t) + MOTION_EXTENSION
  {
    var s := t + MOTION_EXTENSION;
    ReplaceSeparatorsAt(s);
    ReplaceSeparatorsAt(t);
    assert forall i :: |t| <= i < |s| ==> s[i] == MOTION_EXTENSION[i - |t|];
  }

  /** A path whose stem holds no separator and no `.npz` keeps its stem and
      only trades the extension. */
  lemma NormalizePlainPath(stem: string)
    requires !Contains(stem, ".npz")
    requires forall i :: 0 <= i < |stem| ==> !IsSeparator(stem[i])
    ensures Normalize(stem + ARCHIVE_EXTENSION) == stem + MOTION_EXTENSION
  {
    ReplaceAllSuffix(stem, ARCHIVE_EXTENSION, MOTION_EXTENSION);
    ReplaceAllIdentity(stem, ARCHIVE_EXTENSION, MOTION_EXTENSION);
    KeepsMotionSuffix(stem);
    ReplaceSeparatorsAt(stem);
  }

  /** The path of a kept archive: a stem holding no `.npz`, then the
      extension. Its identifier is the stem with every separator turned into
      `_`, followed by `.motion`; no other character of the stem changes. */
  lemma NormalizeArchivePath(stem: string)
    requires !Contains(stem, ".npz")
    ensures Normalize(stem + ARCHIVE_EXTENSION) == ReplaceSeparators(stem) + MOTION_EXTENSION
    ensures |Normalize(stem + ARCHIVE_EXTENSION)| == |stem| + |MOTION_EXTENSION|
    ensures forall i :: 0 <= i < |stem| ==>
              Normalize(stem + ARCHIVE_EXTENSION)[i] == Underscored(stem[i])
  {
    ReplaceAllSuffix(stem, ARCHIVE_EXTENSION, MOTION_EXTENSION);
    ReplaceAllIdentity(stem, ARCHIVE_EXTENSION, MOTION_EXTENSION);
    KeepsMotionSuffix(stem);
    ReplaceSeparatorsAt(stem);
  }

  /** Archive paths collide: two stems without `.npz` give the same
      identifier exactly when they have the same length and agree at every
      position once separators are read as `_`. */
  lemma NormalizeArchiveCollision(a: string, b: string)
    requires !Contains(a, ".npz") && !Contains(b, ".npz")
    ensures Normalize(a + ARCHIVE_EXTENSION) == Normalize(b + ARCHIVE_EXTENSION) <==>
            |a| == |b| && forall i :: 0 <= i < |a| ==> Underscored(a[i]) == Underscored(b[i])
  {
    NormalizeArchivePath(a);
    NormalizeArchivePath(b);
    ReplaceSeparatorsAt(a);
    ReplaceSeparatorsAt(b);
    var ra, rb := ReplaceSeparators(a), ReplaceSeparators(b);
    if Normalize(a + ARCHIVE_EXTENSION) == Normalize(b + ARCHIVE_EXTENSION) {
      assert ra == (ra + MOTION_EXTENSION)[..|ra|];
      assert rb == (rb + MOTION_EXTENSION)[..|rb|];
      forall i | 0 <= i < |a| ensures Underscored(a[i]) == Underscored(b[i]) {
        assert ra[i] == rb[i];
      }
    }
    if |a| == |b| && forall i :: 0 <= i < |a| ==> Underscored(a[i]) == Underscored(b[i]) {
      assert ra == rb;
    }
  }

  /** `my-take.npz` and `my_take.npz` in the same directory both become
      `my_take.motion`. */
  lemma NormalizeCollisionExample(dir: string)
    requires '.' !in dir
    requires forall i :: 0 <= i < |dir| ==> !IsSeparator(dir[i])
    ensures Normalize(dir + "/my-take.npz") == dir + "/my_take.motion"
    ensures Normalize(dir + "/my_take.npz") == dir + "/my_take.motion"
  {
    var dashed, plain := dir + "/my-take", dir + "/my_take";
    assert forall i :: |dir| <= i < |dashed| ==> dashed[i] == "/my-take"[i - |dir|];
    assert forall i :: |dir| <= i < |plain| ==> plain[i] == "/my_take"[i - |dir|];
    NoLeadCharNoOccurrence(dashed, ARCHIVE_EXTENSION);
    NoLeadCharNoOccurrence(plain, ARCHIVE_EXTENSION);
    NormalizeArchivePath(dashed);
    NormalizeArchivePath(plain);
    ReplaceSeparatorsAt(dashed);
    ReplaceSeparatorsAt(plain);
    assert ReplaceSeparators(dashed) == plain;
    assert ReplaceSeparators(plain) == plain;
    assert dashed + ARCHIVE_EXTENSION == dir + "/my-take.npz";
    assert plain + ARCHIVE_EXTENSION == dir + "/my_take.npz";
    assert plain + MOTION_EXTENSION == dir + "/my_take.motion";
  }

  /** The separator pass works on each part of a concatenation on its own. */
  lemma ReplaceSeparatorsConcat(x: string, y: string)
    ensures ReplaceSeparators(x + y) == ReplaceSeparators(x) + ReplaceSeparators(y)
  {
    ReplaceSeparatorsAt(x + y);
    ReplaceSeparatorsAt(x);
    ReplaceSeparatorsAt(y);
    assert forall i :: |x| <= i < |x + y| ==> (x + y)[i] == y[i - |x|];
  }

  /** Every `.npz`, not only a trailing one, becomes `.motion`: the first
      occurrence after a prefix `a` holding none is rewritten, and
      normalisation carries on with the rest of the path. */
  lemma NormalizeInterior(a: string, b: string)
    requires !Contains(a, ".npz")
    ensures Normalize(a + ARCHIVE_EXTENSION + b)
            == ReplaceSeparators(a) + MOTION_EXTENSION + Normalize(b)
  {
    ReplaceAllSplit(a, ARCHIVE_EXTENSION, MOTION_EXTENSION, b);
    var rb := ReplaceAll(b, ARCHIVE_EXTENSION, MOTION_EXTENSION);
    ReplaceSeparatorsConcat(a + MOTION_EXTENSION, rb);
    KeepsMotionSuffix(a);
  }

  // ---------------------------------------------------------------------
  // Entry construction
  // ---------------------------------------------------------------------

  /** `create_motion_entry`: the entry carries the given file, frame rate and
      index with weight 1.0; `sub_motions` is present exactly when an end time
      is given, and is then one timing from 0.0 to that end time. */
  function CreateMotionEntry(motionFile: string, endTime: Option<real>, fps: real, idx: int): (e: Entry)
    ensures e.file == motionFile && e.fps == fps && e.weight == 1.0 && e.idx == idx
    ensures e.subMotions.Some? <==> endTime.Some?
    ensures endTime.Some? ==> e.subMotions.value == [SubMotion(Timings(0.0, endTime.value))]
  {
    var subMotions := match endTime
      case None => None
      case Some(end) => Some([SubMotion(Timings(0.0, end))]);
    Entry(motionFile, fps, 1.0, idx, subMotions)
  }

  // ---------------------------------------------------------------------
  // Extraction from an archive
  // ---------------------------------------------------------------------

  /** The frame-rate field, looked up under the primary key first and the
      fallback key second. */
  function RateField(fields: map<string, Field>): (f: Option<Field>)
    ensures PRIMARY_RATE_KEY in fields ==> f == Some(fields[PRIMARY_RATE_KEY])
    ensures PRIMARY_RATE_KEY !in fields && FALLBACK_RATE_KEY in fields ==>
              f == Some(fields[FALLBACK_RATE_KEY])
    ensures f.None? <==> PRIMARY_RATE_KEY !in fields && FALLBACK_RATE_KEY !in fields
  {
    if PRIMARY_RATE_KEY in fields then Some(fields[PRIMARY_RATE_KEY])
    else if FALLBACK_RATE_KEY in fields then Some(fields[FALLBACK_RATE_KEY])
    else None
  }

  /** The body of the `try` block: open the archive, read the frame rate,
      read the pose count, divide. Each way it can fail is one `Skip`. */
  function Extract(a: Archive): (r: Result<Metadata, Skip>)
    ensures a.Unreadable? ==> r == Failure(ArchiveReadError(CannotOpen))
    ensures a.Archive? && RateField(a.fields).None? ==> r == Failure(MissingFrameRate)
    ensures r == Failure(MissingPoses) <==>
              a.Archive? && RateField(a.fields).Some? && RateField(a.fields).value.asReal.Some?
              && POSES_KEY !in a.fields
    ensures r == Failure(ArchiveReadError(ZeroFrameRate)) <==>
              a.Archive? && RateField(a.fields).Some? && RateField(a.fields).value.asReal == Some(0.0)
              && POSES_KEY in a.fields && a.fields[POSES_KEY].leadingDim.Some?
    ensures r.Success? <==>
              a.Archive? && RateField(a.fields).Some?
              && RateField(a.fields).value.asReal.Some? && RateField(a.fields).value.asReal != Some(0.0)
              && POSES_KEY in a.fields && a.fields[POSES_KEY].leadingDim.Some?
    ensures r.Success? ==>
              && RateField(a.fields).value.asReal == Some(r.value.fps)
              && a.fields[POSES_KEY].leadingDim == Some(r.value.frames)
              && r.value.fps != 0.0
              && r.value.duration * r.value.fps == r.value.frames as real
  {
    match a
    case Unreadable => Failure(ArchiveReadError(CannotOpen))
    case Archive(fields) =>
      match RateField(fields)
      case None => Failure(MissingFrameRate)
      case Some(rate) =>
        match rate.asReal
        case None => Failure(ArchiveReadError(NotConvertible))
        case Some(fps) =>
          if POSES_KEY !in fields then Failure(MissingPoses)
          else match fields[POSES_KEY].leadingDim
            case None => Failure(ArchiveReadError(NoLeadingAxis))
            case Some(frames) =>
              if fps == 0.0 then Failure(ArchiveReadError(ZeroFrameRate))
              else Success(Metadata(fps, frames, frames as real / fps))
  }

  /** The frame rate comes from the primary key whenever that key is present,
      even if the fallback key is present too; a primary field that `float`
      rejects makes the candidate fail rather than fall back. */
  lemma PrimaryRateWins(fields: map<string, Field>)
    requires PRIMARY_RATE_KEY in fields
    ensures Extract(Archive(fields)).Success? ==>
              fields[PRIMARY_RATE_KEY].asReal == Some(Extract(Archive(fields)).value.fps)
    ensures fields[PRIMARY_RATE_KEY].asReal.None? ==>
              Extract(Archive(fields)) == Failure(ArchiveReadError(NotConvertible))
  {
  }

  /** A frame rate of 30 and 90 poses give a 3-second clip. */
  lemma ExtractExample()
    ensures Extract(Archive(map[PRIMARY_RATE_KEY := Field(Some(30.0), None),
                                POSES_KEY := Field(None, Some(90))]))
            == Success(Metadata(30.0, 90, 3.0))
  {
  }

  // ---------------------------------------------------------------------
  // The accumulation loop
  // ---------------------------------------------------------------------

  /** A candidate yields an entry: it passes the name filter and its
      extraction succeeds. */
  predicate Succeeds(c: Candidate) {
    IsMotionArchive(c.name) && Extract(c.archive).Success?
  }

  /** The entry the loop appends for a successful candidate at index `idx`. */
  function EntryOf(c: Candidate, idx: int): (e: Entry)
    requires Succeeds(c)
    ensures e.file == Normalize(c.absPath) && e.idx == idx && e.weight == 1.0
    ensures e.fps == Extract(c.archive).value.fps && e.fps != 0.0
    ensures e.subMotions.Some? && |e.subMotions.value| == 1
    ensures e.subMotions.value[0].timings.start == 0.0
    ensures e.subMotions.value[0].timings.end * e.fps == Extract(c.archive).value.frames as real
  {
    var m := Extract(c.archive).value;
    CreateMotionEntry(Normalize(c.absPath), Some(m.duration), m.fps, idx)
  }

  /** The list of entries after the loop has seen `cs`, in the loop's own
      shape: the last candidate either appends one entry, numbered by the
      current length, or nothing. */
  function Motions(cs: seq<Candidate>): (r: seq<Entry>)
    ensures |r| <= |cs|
  {
    if cs == [] then []
    else
      var prev := Motions(cs[..|cs| - 1]);
      var c := cs[|cs| - 1];
      if Succeeds(c) then prev + [EntryOf(c, |prev|)] else prev
  }

  /** The successful candidates, in walk order. */
  function Emitted(cs: seq<Candidate>): (r: seq<Candidate>)
    ensures |r| <= |cs|
    ensures forall k :: 0 <= k < |r| ==> Succeeds(r[k])
    ensures forall c :: c in r ==> c in cs
  {
    if cs == [] then []
    else
      assert cs == [cs[0]] + cs[1..];
      (if Succeeds(cs[0]) then [cs[0]] else []) + Emitted(cs[1..])
  }

  /** `main`: walk the candidates in order; a candidate that the filter
      rejects or whose extraction fails is skipped, every other one appends
      an entry with the current counter, which then advances. */
  method BuildManifest(candidates: seq<Candidate>) returns (manifest: Document)
    ensures manifest.motions == Motions(candidates)
    ensures |manifest.motions| == |Emitted(candidates)|
    ensures forall k :: 0 <= k < |manifest.motions| ==>
              manifest.motions[k] == EntryOf(Emitted(candidates)[k], k)
  {
    var motions: seq<Entry> := [];
    var idx := 0;
    for i := 0 to |candidates|
      invariant motions == Motions(candidates[..i])
      invariant idx == |motions|
    {
      var file := candidates[i];
      assert candidates[..i + 1][..i] == candidates[..i];
      if IsMotionArchive(file.name) {
        var motionPathEntry := Normalize(file.absPath);
        match Extract(file.archive) {
          case Failure(_) =>
          case Success(data) =>
            var entry := CreateMotionEntry(motionPathEntry, Some(data.duration), data.fps, idx);
            motions := motions + [entry];
            idx := idx + 1;
        }
      }
    }
    assert candidates[..|candidates|] == candidates;
    MotionsEnumerateEmitted(candidates);
    manifest := Document(motions);
  }

  // ---------------------------------------------------------------------
  // Properties of the accumulation
  // ---------------------------------------------------------------------

  /** Filtering distributes over concatenation. */
  lemma {:induction false} EmittedAppend(xs: seq<Candidate>, ys: seq<Candidate>)
    ensures Emitted(xs + ys) == Emitted(xs) + Emitted(ys)
  {
    if xs == [] {
      assert xs + ys == ys;
    } else {
      assert (xs + ys)[1..] == xs[1..] + ys;
      EmittedAppend(xs[1..], ys);
    }
  }

  /** The manifest is the successful candidates, in walk order, numbered
      0, 1, ...: entry `k` is the entry of the `k`-th successful candidate
      with index `k`. */
  lemma {:induction false} MotionsEnumerateEmitted(cs: seq<Candidate>)
    ensures |Motions(cs)| == |Emitted(cs)|
    ensures forall k :: 0 <= k < |Motions(cs)| ==> Motions(cs)[k] == EntryOf(Emitted(cs)[k], k)
  {
    if cs != [] {
      var init, c := cs[..|cs| - 1], cs[|cs| - 1];
      MotionsEnumerateEmitted(init);
      assert init + [c] == cs;
      EmittedAppend(init, [c]);
      assert [c][1..] == [];
    }
  }

  /** The indices are exactly 0 .. N-1, in append order. */
  lemma IndicesContiguous(cs: seq<Candidate>)
    ensures forall k :: 0 <= k < |Motions(cs)| ==> Motions(cs)[k].idx == k
  {
    MotionsEnumerateEmitted(cs);
  }

  /** Every entry the loop emits has weight 1.0, a non-zero frame rate, and
      carries `sub_motions`: one timing that starts at 0.0. */
  lemma EntriesTimed(cs: seq<Candidate>)
    ensures forall k :: 0 <= k < |Motions(cs)| ==>
              var e := Motions(cs)[k];
              && e.weight == 1.0 && e.fps != 0.0
              && e.subMotions.Some? && |e.subMotions.value| == 1
              && e.subMotions.value[0].timings.start == 0.0
  {
    MotionsEnumerateEmitted(cs);
  }

  /** Every entry's file is a clean identifier: no separator, no `.npz`, and
      it ends in `.motion` when the candidate's path ends in `.npz`. */
  lemma ManifestFilesClean(cs: seq<Candidate>)
    requires forall c :: c in cs ==> EndsWith(c.absPath, c.name)
    ensures forall k :: 0 <= k < |Motions(cs)| ==>
              !Contains(Motions(cs)[k].file, ".npz")
              && EndsWith(Motions(cs)[k].file, MOTION_EXTENSION)
              && forall i :: 0 <= i < |Motions(cs)[k].file| ==> !IsSeparator(Motions(cs)[k].file[i])
  {
    MotionsEnumerateEmitted(cs);
    forall k | 0 <= k < |Motions(cs)|
      ensures !Contains(Motions(cs)[k].file, ".npz")
      ensures EndsWith(Motions(cs)[k].file, MOTION_EXTENSION)
      ensures forall i :: 0 <= i < |Motions(cs)[k].file| ==> !IsSeparator(Motions(cs)[k].file[i])
    {
      var c := Emitted(cs)[k];
      EndsWithConcat(c.absPath, "", c.name);
      assert c.absPath[|c.absPath| - 4..] == c.name[|c.name| - 4..];
      NormalizeClean(c.absPath);
      NormalizeEndsWithMotion(c.absPath);
    }
  }

  /** A skipped candidate consumes no index: removing it anywhere leaves the
      manifest exactly as it was. */
  lemma SkipConsumesNoIndex(xs: seq<Candidate>, c: Candidate, ys: seq<Candidate>)
    requires !Succeeds(c)
    ensures Motions(xs + [c] + ys) == Motions(xs + ys)
  {
    EmittedAppend(xs, [c]);
    EmittedAppend(xs + [c], ys);
    EmittedAppend(xs, ys);
    assert Emitted([c]) == [];
    SameEmittedSameMotions(xs + [c] + ys, xs + ys);
  }

  /** The manifest depends on the walk only through its successful
      candidates. */
  lemma SameEmittedSameMotions(a: seq<Candidate>, b: seq<Candidate>)
    requires Emitted(a) == Emitted(b)
    ensures Motions(a) == Motions(b)
  {
    MotionsEnumerateEmitted(a);
    MotionsEnumerateEmitted(b);
  }

  /** Taking one element out of a sequence takes it out of its multiset. */
  lemma RemoveAt(ys: seq<Candidate>, j: nat)
    requires j < |ys|
    ensures ys == ys[..j] + [ys[j]] + ys[j + 1..]
    ensures multiset(ys) == multiset{ys[j]} + multiset(ys[..j] + ys[j + 1..])
  {
    assert ys == ys[..j] + [ys[j]] + ys[j + 1..];
  }

  /** Union with the same singleton can be cancelled. */
  lemma MultisetCancel<T>(x: T, a: multiset<T>, b: multiset<T>)
    requires multiset{x} + a == multiset{x} + b
    ensures a == b
  {
    assert a == (multiset{x} + a) - multiset{x};
    assert b == (multiset{x} + b) - multiset{x};
  }

  /** Filtering respects taking one element out of the walk. */
  lemma EmittedRemoveAt(ys: seq<Candidate>, j: nat)
    requires j < |ys|
    ensures multiset(Emitted(ys))
            == multiset(Emitted([ys[j]])) + multiset(Emitted(ys[..j] + ys[j + 1..]))
  {
    RemoveAt(ys, j);
    EmittedAppend(ys[..j], [ys[j]]);
    EmittedAppend(ys[..j] + [ys[j]], ys[j + 1..]);
    EmittedAppend(ys[..j], ys[j + 1..]);
  }

  /** Which candidates are included does not depend on the walk order: a
      reordering of the walk includes the same candidates, as many times. */
  lemma {:induction false} ReorderKeepsIncluded(xs: seq<Candidate>, ys: seq<Candidate>)
    requires multiset(xs) == multiset(ys)
    ensures multiset(Emitted(xs)) == multiset(Emitted(ys))
    decreases |xs|
  {
    if xs == [] {
      assert |ys| == |multiset(ys)| == 0;
    } else {
      var x := xs[0];
      assert x in multiset(ys);
      var j :| 0 <= j < |ys| && ys[j] == x;
      var rest := ys[..j] + ys[j + 1..];
      RemoveAt(xs, 0);
      RemoveAt(ys, j);
      assert xs[..0] + xs[1..] == xs[1..];
      MultisetCancel(x, multiset(xs[1..]), multiset(rest));
      ReorderKeepsIncluded(xs[1..], rest);
      EmittedRemoveAt(ys, j);
      EmittedRemoveAt(xs, 0);
    }
  }

  /** A reordering of the walk produces a manifest of the same length. */
  lemma ReorderKeepsSize(xs: seq<Candidate>, ys: seq<Candidate>)
    requires multiset(xs) == multiset(ys)
    ensures |Motions(xs)| == |Motions(ys)|
  {
    ReorderKeepsIncluded(xs, ys);
    MotionsEnumerateEmitted(xs);
    MotionsEnumerateEmitted(ys);
    assert |Emitted(xs)| == |multiset(Emitted(xs))| == |multiset(Emitted(ys))| == |Emitted(ys)|;
  }

  /** The identifier of `<dir>/take1.npz`. */
  lemma TakeIdentifier(dir: string)
    requires '.' !in dir
    requires forall i :: 0 <= i < |dir| ==> !IsSeparator(dir[i])
    ensures Normalize(dir + "/take1.npz") == dir + "/take1.motion"
  {
    var stem := dir + "/take1";
    assert forall i :: |dir| <= i < |stem| ==> stem[i] == "/take1"[i - |dir|];
    NoLeadCharNoOccurrence(stem, ARCHIVE_EXTENSION);
    NormalizePlainPath(stem);
    assert stem + ARCHIVE_EXTENSION == dir + "/take1.npz";
    assert stem + MOTION_EXTENSION == dir + "/take1.motion";
  }

  /** A successful candidate followed by a skipped one gives one entry,
      with index 0. */
  lemma KeptThenSkipped(c1: Candidate, c2: Candidate)
    requires Succeeds(c1) && !Succeeds(c2)
    ensures Motions([c1, c2]) == [EntryOf(c1, 0)]
  {
    assert [c1][..0] == [];
    assert Motions([c1]) == [EntryOf(c1, 0)];
    assert [c1, c2][..1] == [c1];
  }

  /** One kept archive (24 fps, 48 poses) beside its excluded shape file,
      both in a directory whose path holds no `.` and no separator, give a
      manifest of one entry: index 0, weight 1.0, a 2-second timing, and the
      path with `.motion` in place of `.npz`. */
  lemma EndToEndExample(dir: string)
    requires '.' !in dir
    requires forall i :: 0 <= i < |dir| ==> !IsSeparator(dir[i])
    ensures
      var take := Archive(map[PRIMARY_RATE_KEY := Field(Some(24.0), None),
                              POSES_KEY := Field(None, Some(48))]);
      var cs := [Candidate(dir + "/take1.npz", "take1.npz", take),
                 Candidate(dir + "/take1_shape.npz", "take1_shape.npz", take)];
      Motions(cs) == [Entry(dir + "/take1.motion", 24.0, 1.0, 0,
                            Some([SubMotion(Timings(0.0, 2.0))]))]
  {
    var take := Archive(map[PRIMARY_RATE_KEY := Field(Some(24.0), None),
                            POSES_KEY := Field(None, Some(48))]);
    var c1 := Candidate(dir + "/take1.npz", "take1.npz", take);
    var c2 := Candidate(dir + "/take1_shape.npz", "take1_shape.npz", take);
    assert Extract(take) == Success(Metadata(24.0, 48, 2.0));
    FilterKeepsPlainArchive();
    FilterRejectsAuxiliary();
    TakeIdentifier(dir);
    assert EntryOf(c1, 0) == Entry(dir + "/take1.motion", 24.0, 1.0, 0,
                                   Some([SubMotion(Timings(0.0, 2.0))]));
    KeptThenSkipped(c1, c2);
  }
}
