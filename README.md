# Motion manifest builder, modelled in Dafny

ProtoMotions ships a script, `scripts/generate_yaml_from_dir.py`, that walks a
directory of motion-capture archives (`.npz` files) and writes a YAML manifest
`{"motions": [...]}`. Each entry names a motion file, its frame rate, a fixed
weight of 1.0, a running index and one timing sub-motion covering the clip.
This project models that builder in four parts and proves what it promises.

- `strings.dfy` (module `Strings`): Python's `str.endswith` and `str.replace`
  on `seq<char>`. `ReplaceAll` replaces every non-overlapping occurrence,
  scanning left to right. Lemmas say when a pattern is removed for good, when
  a string is left unchanged, and how a single-character replacement acts
  position by position.
- `manifest.dfy` (module `Manifest`):
  - the file-name filter `IsMotionArchive`;
  - identifier normalisation `Normalize` (`.npz` becomes `.motion`, then
    `-`, space, `(` and `)` become `_`);
  - `CreateMotionEntry`;
  - archive reading `Extract`, which gives either the metadata or the reason
    the candidate is skipped;
  - the accumulation loop `BuildManifest`, a method with a `for` loop proved
    against the specification function `Motions`.
- `wrappers.dfy` (module `Wrappers`): `Option` (Python's `None`) and `Result`
  (the caught exceptions).

Model inputs:

- The directory walk is a `seq<Candidate>` in walk order. Each candidate holds
  an absolute path, a base name and the archive stored there.
- An archive is `Unreadable` (`np.load` raises) or a map from field names to a
  `Field`. A field records what `float(field)` returns and what
  `field.shape[0]` returns. Either is `None` when that call raises.

Every per-candidate failure is a `Skip` value. The error classes are
`MissingFrameRate`, `MissingPoses` and `ArchiveReadError`. The last one covers
an unopenable file, a frame rate `float` rejects, a pose field without an axis,
and a zero frame rate.

The central results:

- `MotionsEnumerateEmitted`: the manifest is the successful candidates in walk
  order, numbered 0, 1, …, N-1.
- `SkipConsumesNoIndex`: a skipped candidate can be deleted from anywhere in
  the walk without changing the manifest.
- `NormalizeClean` and `NormalizeIdempotent`: an identifier contains no
  separator and no `.npz`, and normalising it again changes nothing.
- `ReorderKeepsIncluded`: reordering the walk changes neither which candidates
  are included nor how many times.

Three behaviours of the code are easy to misread:

- A frame rate of zero does not escape as an arithmetic fault. The division
  at line 66 raises `ZeroDivisionError` inside the `try`, the
  `except Exception` at line 75 catches it, and the candidate is skipped
  (`ArchiveReadError(ZeroFrameRate)`).
- Normalisation does not only swap the extension. `replace(".npz", ".motion")`
  rewrites every `.npz` in the absolute path, directories included
  (`NormalizeInterior`).
- `sub_motions` is optional in `create_motion_entry`. The loop always passes a
  duration, so every emitted entry has one (`EntriesTimed`).

## Model

| member | source | states |
|---|---|---|
| `Strings.EndsWithConcat` | scripts/generate_yaml_from_dir.py:40 | a name ends in `a + b` iff it ends in `b` and the part before `b` ends in `a` (how the `stagei.npz` / `shape.npz` tests decompose) |
| `Strings.ReplaceCharAt` | scripts/generate_yaml_from_dir.py:47-50 | `replace` of one character by one character keeps the length, turns each `c` into `d` and leaves every other character unchanged |
| `Strings.ReplaceAllIdentity` | scripts/generate_yaml_from_dir.py:46 | `replace` returns a string with no occurrence of the pattern unchanged |
| `Strings.ReplaceAllRemoves` | scripts/generate_yaml_from_dir.py:46 | when the replacement cannot recreate the pattern, no occurrence of it remains anywhere in the result |
| `Strings.ReplaceAllSuffix` | scripts/generate_yaml_from_dir.py:46 | for a pattern whose first character does not recur in it, a trailing occurrence is always replaced: `replace(stem + pat) == replace(stem) + rep` |
| `Strings.ReplaceAllSplit` | scripts/generate_yaml_from_dir.py:46 | for the same patterns, the first occurrence after a prefix holding none is replaced and the scan resumes right after it: `replace(a + pat + b) == a + rep + replace(b)` |
| `Strings.EndsWith` | scripts/generate_yaml_from_dir.py:40 | definition of `str.endswith`: the last `|suffix|` characters equal `suffix` |
| `Strings.ReplaceAll` | scripts/generate_yaml_from_dir.py:46-50 | definition of `str.replace` for a non-empty pattern: a left-to-right scan that replaces each match and resumes after it (its properties are the `ReplaceAll…` lemmas) |
| `Manifest.IsMotionArchive` | scripts/generate_yaml_from_dir.py:40 | definition of the filter: ends with `.npz` and with neither `stagei.npz` nor `shape.npz` (read on the stem by `IsMotionArchiveByStem`) |
| `Manifest.ReplaceSeparators` | scripts/generate_yaml_from_dir.py:47-50 | definition of the four separator `replace` calls, in source order (position by position by `ReplaceSeparatorsAt`) |
| `Manifest.Normalize` | scripts/generate_yaml_from_dir.py:45-51 | definition of the identifier chain: `.npz` to `.motion`, then the separators (its properties are the `Normalize…` lemmas) |
| `Manifest.IsMotionArchiveByStem` | scripts/generate_yaml_from_dir.py:40 | a name is kept iff its last four characters are `.npz` and the stem before them ends with neither `stagei` nor `shape` |
| `Manifest.FilterKeepsPlainArchive` | scripts/generate_yaml_from_dir.py:40 | `take1.npz` is kept |
| `Manifest.FilterRejectsAuxiliary` | scripts/generate_yaml_from_dir.py:40 | `x_shape.npz`, `reshape.npz`, `a_stagei.npz` and `take1_shape.npz` are rejected: the exclusion is a plain suffix test |
| `Manifest.FilterNeedsExactExtension` | scripts/generate_yaml_from_dir.py:40 | `a.NPZ` and `take1.npz.bak` are rejected: the extension test is case-sensitive and anchored at the end |
| `Manifest.ReplaceSeparatorsAt` | scripts/generate_yaml_from_dir.py:47-50 | the four separator replacements keep the length, map each of `-`, space, `(`, `)` to `_` and leave every other character unchanged |
| `Manifest.ReplaceSeparatorsKeepsOccurrence` | scripts/generate_yaml_from_dir.py:47-50 | the separator pass neither creates nor destroys an occurrence of a pattern free of separators and `_` |
| `Manifest.NormalizeClean` | scripts/generate_yaml_from_dir.py:45-51 | a normalised identifier contains no `-`, space, `(` or `)`, and no `.npz` anywhere in the path |
| `Manifest.ReplaceSeparatorsConcat` | scripts/generate_yaml_from_dir.py:47-50 | the separator pass acts on each part of a concatenation independently |
| `Manifest.NormalizeInterior` | scripts/generate_yaml_from_dir.py:45-51 | every `.npz`, not only a trailing one, becomes `.motion`: for a prefix `a` without `.npz`, `Normalize(a + ".npz" + b)` is `a` with separators underscored, then `.motion`, then `Normalize(b)` |
| `Manifest.NormalizeChangesOnlySeparators` | scripts/generate_yaml_from_dir.py:45-51 | on a string without `.npz` (such as an identifier already normalised), normalisation keeps the length and changes only the separator characters, each to `_` |
| `Manifest.NormalizeCollision` | scripts/generate_yaml_from_dir.py:45-51 | two strings without `.npz` normalise to the same result iff they have equal length and agree everywhere once separators read as `_` |
| `Manifest.NormalizeArchivePath` | scripts/generate_yaml_from_dir.py:45-51 | for a path ending in `.npz`, `stem + ".npz"`, whose stem holds no other `.npz`, the identifier is the stem with each separator turned into `_` and every other character kept, followed by `.motion` |
| `Manifest.NormalizeArchiveCollision` | scripts/generate_yaml_from_dir.py:45-51 | two such archive paths give the same identifier iff their stems have equal length and agree everywhere once separators read as `_` (the collision risk, in both directions) |
| `Manifest.NormalizeCollisionExample` | scripts/generate_yaml_from_dir.py:45-51 | `dir/my-take.npz` and `dir/my_take.npz` both become `dir/my_take.motion` |
| `Manifest.NormalizeIdempotent` | scripts/generate_yaml_from_dir.py:45-51 | normalising a normalised identifier returns it unchanged |
| `Manifest.NormalizeEndsWithMotion` | scripts/generate_yaml_from_dir.py:40-51 | a path ending in `.npz` yields an identifier ending in `.motion` |
| `Manifest.NormalizePlainPath` | scripts/generate_yaml_from_dir.py:45-51 | a stem free of separators and `.npz` is kept verbatim, and only the extension changes to `.motion` |
| `Manifest.CreateMotionEntry` | scripts/generate_yaml_from_dir.py:7-21 | the entry has `file`, `fps` and `idx` equal to the arguments and weight 1.0; `sub_motions` is present iff an end time is given, and is then exactly one timing from 0.0 to that end time |
| `Manifest.RateField` | scripts/generate_yaml_from_dir.py:56-62 | the frame-rate field is `mocap_framerate` when present, otherwise `mocap_frame_rate`, and absent iff neither key exists |
| `Manifest.Extract` | scripts/generate_yaml_from_dir.py:53-77 | an unreadable archive is a read error; no rate key gives `MissingFrameRate`; a convertible rate without `poses` gives `MissingPoses`; a zero rate with a valid pose array is a read error; success holds iff the archive is readable, the rate converts and is non-zero, and `poses` has a leading axis; then `fps` is the rate, `frames` is `shape[0]` and `duration * fps == frames` |
| `Manifest.PrimaryRateWins` | scripts/generate_yaml_from_dir.py:56-59 | with `mocap_framerate` present its value is the frame rate even if the fallback key exists, and a primary value `float` rejects makes the candidate fail instead of falling back |
| `Manifest.ExtractExample` | scripts/generate_yaml_from_dir.py:56-66 | frame rate 30 with 90 poses gives a duration of 3.0 |
| `Manifest.Succeeds` | scripts/generate_yaml_from_dir.py:40-69 | definition: a candidate yields an entry iff its name passes the filter and extraction succeeds (the `try` reaches line 71) |
| `Manifest.EntryOf` | scripts/generate_yaml_from_dir.py:45-71 | the appended entry has the normalised path as file, the given index, weight 1.0, the extracted non-zero frame rate, and one timing from 0.0 whose end times the frame rate is the pose count |
| `Manifest.Motions` | scripts/generate_yaml_from_dir.py:33-77 | the entry list after the loop has seen a walk, built the loop's way from the back; never longer than the walk |
| `Manifest.Emitted` | scripts/generate_yaml_from_dir.py:40-77 | the candidates that yield an entry, in walk order: no more than the walk, each one drawn from it and each passing the filter and extraction |
| `Manifest.BuildManifest` | scripts/generate_yaml_from_dir.py:33-79 | the loop's result is `Motions(candidates)`: as many entries as successful candidates, entry `k` being the entry of the `k`-th successful candidate with index `k`; the counter equals the list length throughout |
| `Manifest.EmittedAppend` | scripts/generate_yaml_from_dir.py:38-40 | which candidates yield an entry is decided one candidate at a time, so it distributes over concatenation of walks |
| `Manifest.MotionsEnumerateEmitted` | scripts/generate_yaml_from_dir.py:33-77 | the manifest has one entry per successful candidate, in the same relative order, and entry `k` is built from the `k`-th with index `k` |
| `Manifest.IndicesContiguous` | scripts/generate_yaml_from_dir.py:33-73 | the emitted indices are exactly 0, 1, …, N-1 in append order |
| `Manifest.EntriesTimed` | scripts/generate_yaml_from_dir.py:64-72 | every emitted entry has weight 1.0, a non-zero frame rate and exactly one sub-motion, starting at 0.0 |
| `Manifest.ManifestFilesClean` | scripts/generate_yaml_from_dir.py:40-51 | when each path ends in its file name, every entry's file ends in `.motion` and contains no separator and no `.npz` |
| `Manifest.SkipConsumesNoIndex` | scripts/generate_yaml_from_dir.py:53-77 | a candidate that is filtered out or fails extraction can be removed from anywhere in the walk without changing any entry or index |
| `Manifest.SameEmittedSameMotions` | scripts/generate_yaml_from_dir.py:33-77 | two walks with the same successful candidates give the same manifest |
| `Manifest.ReorderKeepsIncluded` | scripts/generate_yaml_from_dir.py:38-40 | any reordering of the walk includes the same candidates the same number of times |
| `Manifest.ReorderKeepsSize` | scripts/generate_yaml_from_dir.py:38-73 | any reordering of the walk gives a manifest of the same length |
| `Manifest.EndToEndExample` | scripts/generate_yaml_from_dir.py:33-79 | `take1.npz` (24 fps, 48 poses) beside `take1_shape.npz` gives one entry: index 0, fps 24, weight 1.0, a timing from 0.0 to 2.0, and a file ending in `take1.motion` |

## Left out

- Argument parsing (lines 24-31) is command-line plumbing; the candidate sequence is the model's input.
- The console messages (lines 36, 61, 68, 76, 86) are logging only.
- `os.walk`, `os.path.join` and `os.path.abspath` (lines 38, 41, 43) are filesystem calls. The walk's two nested loops become one sequence of candidates in walk order, so the model assumes that order rather than computing it. Each candidate's absolute path is an input; `ManifestFilesClean` assumes only that it ends with the file name.
- `np.load` and numpy arrays (lines 54, 57, 59, 65) are a foreign library. An archive is a map of fields, each described by what `float()` and `shape[0]` return. Any exception raised while reading a field becomes `None` there. `NpzFile.__contains__` also matching names with a `.npy` suffix is not modelled.
- `os.makedirs`, the file write and `yaml.dump` (lines 81-84) are I/O and serialisation. The model stops at the `Document` value `{"motions": [...]}`. Key order is kept by the `Entry` field order.
- Frame rates and durations are reals, not IEEE doubles, so NaN, infinities and rounding are not modelled. Python's `-0.0 == 0.0` needs nothing special because reals have a single zero.
- Only catchable exceptions are modelled. A `BaseException` outside `Exception` (an interrupt) would end the scan, and that case is not represented.
- `Strings.ReplaceAll` requires a non-empty pattern. Python's `replace("", x)` inserts between characters, but the source only ever passes the non-empty constants `.npz`, `-`, space, `(` and `)`.
