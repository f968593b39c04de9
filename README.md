# File-name versioning, modelled in Dafny

The program resolves clashes between file names. A name may end in a
version marker such as `Report (v3)`. An incoming name that clashes with a
taken name, ignoring case, gets the next free version of its base name:
`Report` becomes `Report (v1)`, then `Report (v2)`, and so on.

The model covers the three parts of `Program.cs`:

- **Parsing.** The `FileName` constructor trims its argument and tries the
  pattern `^(.*?)\s*\(\s*v\s*(\d+)\s*\)\s*$` (ignoring case). On a match,
  the base name is group 1, trimmed, and the version is group 2 read as a
  decimal number. Otherwise the base name is the whole trimmed name and
  there is no version. `VersionMarker.Match` reads the pattern from the
  right: `)`, blanks, digits, blanks, `v` or `V`, blanks, `(`. Group 1 is
  whatever comes before, less its trailing blanks. Two lemmas prove the
  matcher right against a separate left-to-right grammar of the same
  pattern (`Marker`, `Render`, `WellFormed`): `MatchComplete` and
  `MatchSound`.
- **Choosing a version.** `FileName.AssignNextVersion` is a method on a
  class. Its do-while loop is proved against the function `NextName`,
  which states what the final name is. `NextName` is built from:
  - `Taken`, the lowercased set of taken names;
  - `HighestVersion`, the LINQ maximum;
  - `FirstFree`, the first free candidate from a given version on.

  The loop's termination is proved with a ghost set. Each pass removes the
  candidate it found taken, so the loop runs at most once per taken name.
- **Batch processing.** `FileNameProcessor.ProcessNames` is the `foreach`
  loop. It creates a `FileName` per incoming name and calls
  `AssignNextVersion` on it. The loop is proved against the fold
  `ProcessAll`.
- **Worked cases.** The `Scenarios` module holds the worked cases for
  `Report`, `Draft` and `Notes`, and their general forms.

Where the pattern's behaviour is easy to misread, the model follows Program.cs:

- The blank space before `(` is optional (`\s*`), not required.
- The highest-version scan runs the pattern over the lowercased taken
  names as they are. It does not trim them first.
- Because `.` in the pattern does not match a line feed, a name whose
  text before the final `(`, less its trailing whitespace, contains a line
  feed has no version. A line feed inside the whitespace just before `(` is
  taken by `\s*` and does no harm.
- A digit run too large for `int` makes `int.Parse` throw (see "Left out").

Text handling is ASCII throughout:

- The whitespace of `\s` and `String.Trim` is space, tab, line feed,
  vertical tab, form feed and carriage return.
- `\d` is `0`–`9`.
- `ToLower` and `OrdinalIgnoreCase` map `A`–`Z` to `a`–`z`.

Versions are unbounded naturals.

## Model

| member | source | states |
|---|---|---|
| Text.Trim | Program.cs:21 | the result has no leading or trailing whitespace |
| Text.TrimMiddle | Program.cs:21 | what `Trim` keeps is a contiguous part of the input, with only whitespace cut away on either side |
| Text.ShowNat | Program.cs:63 | the decimal text of `n` is a non-empty digit run without a leading zero that reads back as `n` |
| Text.ShowNatInjective | Program.cs:63 | distinct versions are written differently |
| Text.LowerIdempotent | Program.cs:40 | lowercasing an already lowercased name changes nothing, so the lowercased set is closed under `ToLower` |
| Text.TrimLower | Program.cs:53 | trimming and lowercasing commute, so comparing trimmed bases ignoring case does not depend on the order of the two |
| Text.ParseDigitsLeadingZero | Program.cs:27 | leading zeros do not change the value a digit run is read as |
| VersionMarker.Match | Program.cs:10-12 | on a match, group 2 is a non-empty digit run, and group 1 has no trailing whitespace and no line feed |
| VersionMarker.MatchComplete | Program.cs:10-12 | every string of the marker grammar is matched; group 1 is its prefix less trailing blanks and group 2 is its digit run |
| VersionMarker.MatchSound | Program.cs:10-12 | every matched string is a string of the marker grammar whose prefix and digits are the two groups |
| VersionMarker.MatchLower | Program.cs:50-52 | matching a lowercased name succeeds exactly when matching the name does, with group 1 lowercased and the same digits |
| FileNames.Parse | Program.cs:21-33 | the trimmed name and the base name have no outer whitespace; without a version the base is the whole trimmed name; with one the base is strictly shorter |
| FileNames.ParseGrammar | Program.cs:21-33 | when the trimmed name is a string of the marker grammar, the base is its prefix trimmed and the version its digits; when it is not, the base is the trimmed name and there is no version |
| FileNames.FileName.constructor | Program.cs:19-36 | the three parsed properties are those of `Parse(name)`, and `FinalName` starts equal to the trimmed `OriginalName` |
| FileNames.HighestVersionIsMax | Program.cs:50-56 | the highest version is at least the version every taken name contributes for the base, and is one of those versions, or 0 when none contributes |
| FileNames.MaxVersion | Program.cs:54-56 | the result is at least every version present, and is one of them, or 0 when none is present |
| FileNames.HighestVersionLowered | Program.cs:50-53 | scanning the lowercased set gives the same highest version as scanning the names as given, because bases are compared ignoring case |
| FileNames.VersionForLower | Program.cs:50-54 | the version a taken name contributes for a base does not depend on the case of that name |
| FileNames.VersionForCandidate | Program.cs:50-54 | for a trimmed base on one line, the candidate `"{base} (v{n})"` contributes version `n` for that base |
| FileNames.TakenSize | Program.cs:40 | the lowercased set of taken names has no more elements than the list it is built from |
| FileNames.CandidateLower | Program.cs:63-64 | lowercasing a candidate gives the candidate of the lowercased base |
| FileNames.MatchCandidate | Program.cs:63 | a candidate on one line matches the version pattern, with its base less trailing whitespace as group 1 and the decimal text of its version as group 2 |
| FileNames.FirstFree | Program.cs:60-64 | the first version from `k` on whose candidate is free; every version skipped was taken, and at most `|taken|` were skipped |
| FileNames.CandidatesDistinct | Program.cs:63-64 | candidates for distinct versions differ even after lowercasing |
| FileNames.NextName | Program.cs:40-66 | the final name is not in the lowercased set, and it is the trimmed name exactly when that name is free |
| FileNames.FileName.AssignNextVersion | Program.cs:38-67 | the new `FinalName` is `NextName` of the object's parsed fields against `existingNames` |
| FileNames.FirstFreeSkip | Program.cs:60-64 | one loop pass: the taken candidate is removed from the ghost set and the search from the next version gives the same answer |
| FileNames.FirstUseKeepsName | Program.cs:44-48 | a name that equals no taken name, ignoring case, is kept as trimmed |
| FileNames.NoCollision | Program.cs:40-66 | the final name differs, ignoring case, from every taken name |
| FileNames.CollisionChoosesSmallestFree | Program.cs:50-66 | on a clash the final name is the candidate for the smallest free version above `max(Version ?? 0, highest version of the base)`, and at most `|existingNames| + 1` versions are tried |
| FileNames.ParseCandidate | Program.cs:21-33 | a candidate built from a trimmed base on one line parses back to that base and version |
| FileNames.HighestVersionGrows | Program.cs:50-56 | adding a name to the taken list never lowers the highest version found for a base |
| FileNames.CaseOfTakenIrrelevant | Program.cs:40-56 | two taken lists that are equal once lowercased give every name the same final name |
| FileNames.StartVersionGrows | Program.cs:41-58 | adding a taken name never lowers `max(Version ?? 0, highest version)`, where the search starts |
| FileNames.RepeatGetsHigherVersion | Program.cs:50-66 | resolving the same clashing name again, once its first result is taken, gives a strictly higher version |
| FileNameProcessor.ProcessAll | Program.cs:72-86 | the fold the loop is proved against has one result per incoming name |
| FileNameProcessor.ProcessNames | Program.cs:72-86 | the returned list is the fold `ProcessAll` over the incoming names |
| FileNameProcessor.ProcessAllAt | Program.cs:77-83 | result `i` is what `AssignNextVersion` gives incoming name `i` against the originals followed by results `0..i-1` |
| FileNameProcessor.ProcessAllPrefix | Program.cs:77-83 | processing a prefix of the incoming names gives the same prefix of the results |
| FileNameProcessor.ProcessedNoCollision | Program.cs:77-83 | each result differs, ignoring case, from every original name and every earlier result |
| FileNameProcessor.ProcessedDistinct | Program.cs:77-83 | no two results are equal ignoring case |
| FileNameProcessor.ProcessedKeepsFreeName | Program.cs:77-83 | an incoming name still free when its turn comes is kept, trimmed |
| Scenarios.RepeatUnversioned | Program.cs:72-86 | with no original names, `k` copies of a trimmed name on one line without a marker give the name, then its versions 1 to `k - 1`, in order |
| Scenarios.ResolveAgainstVersioned | Program.cs:38-67 | a trimmed name on one line without a marker, against itself and its versions 1 to `k - 1`, gets version `k` |
| Scenarios.OtherVersionKept | Program.cs:44-48 | for a non-empty trimmed base on one line, its candidate `"{b} (v{n})"` is kept when only another version `"{b} (v{m})"` of that base is taken |
| Scenarios.HigherVersionWins | Program.cs:50-66 | for a non-empty trimmed base `b` on one line, a taken `"{b} (v{n})"` next to a taken `"{b} (v{m})"` with `n < m` becomes `"{b} (v{m+1})"` |
| Scenarios.DraftThreeTimes | Program.cs:72-86 | with no original names, `Draft` three times gives `Draft`, `Draft (v1)`, `Draft (v2)` |
| Scenarios.ReportTakenOnce | Program.cs:38-67 | `Report` against `Report` becomes `Report (v1)` |
| Scenarios.ReportTakenUpperCase | Program.cs:40-48 | `Report` against `REPORT` becomes `Report (v1)`: `Report` and `REPORT` are the same name |
| Scenarios.ReportTakenTwice | Program.cs:38-67 | `Report` against `Report`, `Report (v1)` becomes `Report (v2)` |
| Scenarios.NotesFree | Program.cs:44-48 | `Notes (v2)` against `Notes (v5)` is kept |
| Scenarios.NotesTaken | Program.cs:50-66 | `Notes (v2)` against `Notes (v5)`, `Notes (v2)` becomes `Notes (v6)` |

## Left out

- `Main` (Program.cs:93 onwards) is console input and output only.
- The .NET regular-expression engine is replaced by the matcher
  `VersionMarker.Match`. The two agree on this one pattern, with the
  caveats below.
- Unicode is left out. `\s`, `\d`, `String.Trim`, the culture-sensitive
  `ToLower` and `OrdinalIgnoreCase` are modelled on ASCII only.
- `int.Parse` overflow is not modelled (Program.cs:27 and 54). A digit run
  too large for a 32-bit `int` throws `OverflowException` in the program.
  The model reads any digit run as a natural number. The code has no
  per-name error path.
- `FileNames.FileName.AssignNextVersion` does not model the wrap-around of
  `currentVersion++` at `int.MaxValue` (Program.cs:62), because versions
  are unbounded naturals.
- A null list throws `ArgumentNullException` (Program.cs:40, 74) or
  `NullReferenceException` (the `foreach` at Program.cs:77). A null element
  throws `NullReferenceException` at `Trim` (Program.cs:21) or `ToLower`
  (Program.cs:40). Dafny strings and sequences cannot be null, and `Main`
  never passes null.
- `HashSet` and LINQ are modelled as a `set<string>` and a maximum over a
  sequence. Iteration order does not matter, because only membership and
  the maximum are used.
- The `List<string>` copies in `ProcessNames` are modelled as value
  sequences. `originalNames` therefore cannot change, and there is no
  aliasing to model.
- `FileNameProcessor.ProcessAll` states only the length of its result in
  its own contract. What each entry is comes from `ProcessAllAt` and the
  lemmas after it.
- The worked cases `Scenarios.ReportTakenOnce`, `Scenarios.ReportTakenTwice`,
  `Scenarios.NotesFree` and `Scenarios.NotesTaken` are stated for a single
  `AssignNextVersion` call, as `NextName` against the listed names. They
  are not stated for a one-element call to `ProcessNames`.
  `Scenarios.ProcessOne` shows the two are the same.
- `Scenarios.DraftThreeTimes` is stated on `Repeat` and `Versioned`. The
  literal lists are in `Scenarios.DraftLists`, `Scenarios.ReportLists` and
  `Scenarios.NotesLists`.
