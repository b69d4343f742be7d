# roster — a verified model of the change-detection index

roster keeps an index file (the *roster*) for a directory tree. The index maps
each member file's relative path to its `Status`: size, permission string,
modification time and checksum. A scan walks the tree and compares each
regular file against the index under the configured `Verify` policy. It then
reports which files are new, which are modified and which indexed files have
disappeared. This project models, in Dafny:

- the `file` package (`file/file.go`): `Status` with its sentinels and the
  policy-driven `Equals`/`Valid`, ignore-pattern compilation, the `Roster`
  object (`New`, `Parse`, `Status`, `Keep`, `Changed`, `Update`, `Expel`,
  `Absentees`) and the seeding of the absentee set;
- the `walk` package (`walk/walk.go`): the scan driver. It filters traversal
  entries through `Keep`, runs a worker iteration per candidate (`Changed`,
  `Update`, then emitting the path as new or modified), and finally reports
  and expels the absentees.

The Dafny modules follow that structure:

- `Wrappers`: Option, Result and Outcome.
- `Paths`: the lexical `filepath` and `strings` helpers the code relies on.
- `Snapshot`: Status and Verify.
- `Ignore`: the ignore patterns.
- `RosterFile`: the `Roster` class and `Parse`.
- `Scan`: a scan specified as a left fold of worker steps over the candidates.
- `Walk`: the imperative `Walk` method, proved against that fold.
- `ScanProperties`: properties of a whole scan of a freshly parsed roster.
- `ScanExample`: a worked three-entry scan.

`Roster` is a class whose `mem` (index) and `abs` (absentee set) fields the
methods update in place. `Walk` is a loop whose invariant ties the live roster
state to `Run(start, Candidates(entries[..i]))`.

Three behaviours of the code shape the model:

- A new roster's default policy compares size and checksum only
  (`file/file.go:242-247`).
- A candidate whose status cannot be computed, or whose status `Update`
  refuses, is never removed from the absentee set. If it was indexed, it is
  therefore reported deleted and expelled (`walk/walk.go:69-75`, `115-119`).
  `ScanProperties.FailedCandidateDeleted` states this outright.
- An error reported by the traversal callback stops the walk
  (`walk/walk.go:90-92`), and `Walk` discards the error value that
  `filepath.Walk` returns (`walk/walk.go:88`). The model's entry sequence is
  what the traversal delivered before the error. Every indexed path that no
  ignore pattern matches and that the walk did not reach stays absent, so it
  is reported deleted and expelled (`walk/walk.go:115-119`). One unreadable
  directory thus drops the rest of the index;
  `ScanProperties.UnreachedDeleted` states this.

## Model

| member | source | states |
|---|---|---|
| Snapshot.EqualsIffNoEnabledDifference | file/file.go:196-201 | Two statuses are Equals under a policy exactly when no attribute the policy enables differs between them |
| Snapshot.EqualsReflexiveSymmetric | file/file.go:196-201 | Under every policy, Equals is reflexive and symmetric |
| Snapshot.EqualsUnderEmptyPolicy | file/file.go:196-201 | With no attribute enabled, every two statuses are Equals |
| Snapshot.EqualsNarrowing | file/file.go:196-201 | Equality under a policy implies equality under any policy that enables a subset of its attributes |
| Snapshot.ValidIff | file/file.go:191-193 | A status is Valid exactly when at least one attribute differs from its NoStatus sentinel (-1, "(none)", "(none)", "") |
| Snapshot.NoStatusInvalid | file/file.go:160-169 | The NoStatus record is not Valid |
| Ignore.Compile | file/file.go:106-133 | Succeeds exactly when every non-backtick pattern compiles. On success: one pattern per string in order, with a quoted string becoming the literal of its inner text. On failure: the regexp error of the first string that does not compile |
| Ignore.AnyMatch | file/file.go:347-351 | The matching loop returns true exactly when some compiled pattern matches the path |
| Ignore.LiteralMatchesContaining | file/file.go:113-118 | A backtick literal (compiled through QuoteMeta) matches every path that contains its text |
| Ignore.LiteralMatchesIff | file/file.go:113-118 | A backtick literal matches a path exactly when its text occurs in the path at some index |
| RosterFile.Classify | file/file.go:364-368 | Changed's verdict is never both new and changed |
| RosterFile.Roster.New | file/file.go:226-254 | A new roster has the given path and the defaults: unlimited threads and depth, size+checksum policy, an empty index and absentee set. Its ignore list is IgnoreDefault compiled pattern by pattern when the file does not exist, and empty otherwise |
| RosterFile.Parse | file/file.go:260-311 | Returns the directory, path, not-regular and read errors in the code's order. A missing file gives a fresh roster with the defaults of New: unlimited threads and depth, size+checksum policy, IgnoreDefault compiled pattern by pattern, and an empty index and absentee set. A stored document yields a roster carrying its settings and index exactly when its patterns compile, with the absentee set equal to the indexed paths that no pattern matches |
| RosterFile.Roster.Status | file/file.go:327-335 | Returns the indexed status and true when the path is indexed, and NoStatus and false otherwise |
| RosterFile.Roster.Keep | file/file.go:340-353 | Keeps the entry exactly when it is a regular file, its base name differs from the roster file's and no ignore pattern matches it |
| RosterFile.Roster.Changed | file/file.go:359-369 | err is set exactly when MakeStatus failed, in which case the status is NoStatus. The file is new exactly when it has no valid indexed entry. It is changed exactly when that entry is valid and differs from the fresh status under the policy |
| RosterFile.Roster.Update | file/file.go:373-389 | An invalid status is refused with an error and changes nothing. A valid one overwrites the path's entry and removes the path from the absentee set |
| RosterFile.Roster.Expel | file/file.go:392-398 | The index loses exactly that path |
| RosterFile.Roster.Absentees | file/file.go:402-410 | Lists every absent path exactly once: same count, same members, no duplicates |
| Scan.RelPath | walk/walk.go:93 | Strips Clean(root) followed by a separator from the walked path when the path starts with it, and returns the path unchanged otherwise |
| Scan.CandidatesFromEntries | walk/walk.go:93-97 | Every dispatched candidate's path is the relative path of some walked entry |
| Scan.CandidatesKept | walk/walk.go:94-98 | Every dispatched candidate passed Keep as a regular file |
| Scan.ConfirmedMembers | walk/walk.go:69-81 | A path receives a confirmed status exactly when some candidate with that path had its status computed and accepted |
| Scan.ConfirmedValue | walk/walk.go:73 | With distinct paths, each accepted candidate's status is the one the index ends up with |
| Scan.RunIndex | walk/walk.go:66-86 | After all worker iterations, the index is the start index overwritten by the confirmed statuses, and the absentee set has lost exactly the confirmed paths |
| Scan.EmittedConfirmed | walk/walk.go:76-80 | Every path emitted as new or modified had its status accepted |
| Scan.RunEmissions | walk/walk.go:69-81 | With distinct paths, the new list holds the accepted candidates that had no valid entry at scan start, and the modified list those whose valid entry at scan start differs under the policy, in candidate order |
| Scan.NewModDisjoint | file/file.go:364-368 | A path judged new had no valid prior entry, a path judged modified had one, so no path is in both lists |
| Scan.NoEmissions | file/file.go:364-368 | When every accepted candidate equals its valid prior entry, nothing is new or modified |
| Walk.Workers | walk/walk.go:53-65 | At least one worker is started exactly when a positive count is configured, or 0 (no limit) is configured on a machine with at least one CPU; with 0 the count is the CPU count |
| Walk.Work | walk/walk.go:67-83 | One worker iteration on the live roster is exactly one Step of the scan specification |
| Walk.ResolveAbsentees | walk/walk.go:115-119 | The deleted list holds every absentee once, and the index loses exactly the absentees |
| Walk.Walk | walk/walk.go:27-122 | new, mod and the final absentee set are those of the fold of worker steps over the kept entries. The index afterwards is the swept index without the absentees. del lists each absentee once. No deleted path remains indexed or is reported new or modified. Requires at least one worker |
| ScanProperties.ScanDeleted | file/file.go:295-309 | After a scan of a freshly parsed roster, a path is deleted exactly when it was indexed, no ignore pattern matches it and no candidate with that path was accepted |
| ScanProperties.ScanEmittedKept | walk/walk.go:115-119 | A path reported new or modified is never reported deleted and stays in the index |
| ScanProperties.ScanNewModDisjoint | walk/walk.go:76-80 | With distinct candidate paths, no path is reported both new and modified |
| ScanProperties.FailedCandidateDeleted | walk/walk.go:69-75 | An indexed candidate whose status cannot be computed or is refused is reported deleted, expelled, and neither new nor modified |
| ScanProperties.IgnoredSurvives | file/file.go:298-305 | An indexed path that an ignore pattern matches keeps its entry unchanged through the scan |
| ScanProperties.AllUnchanged | walk/walk.go:76-80 | When every candidate is accepted and equals its valid prior entry, nothing is new or modified, and the deleted set is the seeded absentees minus the candidate paths |
| ScanProperties.ScanIdempotent | walk/walk.go:27-122 | Scanning an unchanged tree again, from the index the first scan left, reports nothing new, modified or deleted and leaves the index as it was |
| ScanProperties.UnreachedDeleted | walk/walk.go:88-119 | An indexed, unignored path that no walked entry reaches is reported deleted and expelled |
| ScanExample.ExampleScan | walk/walk.go:27-122 | Concrete run: with "b.txt" and "c.txt" indexed and "a.txt", "b.txt" on disk, "a.txt" is new, nothing is modified, "c.txt" is deleted, and the index ends as {a.txt, b.txt} |
| Paths.BaseOfChild | file/file.go:344 | The base name compared by Keep is the element after the last separator |
| Paths.TrimPrefix | walk/walk.go:93 | The result with the prefix put back is the input when the input starts with the prefix, and the result is the input otherwise |

## Left out

- MakeStatus and Checksum (`os.FileInfo`, `io.Copy`, xxhash): file-system I/O.
  Each traversal entry carries the status MakeStatus would compute, or None
  when it fails.
- The YAML decoding in Parse and the whole of Write: the model takes the
  decoded document as input (`Disk.Stored`). The two failures, reading the
  file and decoding it, are merged into `ReadFailed`.
- Parse, os.Stat errors: os.Stat errors other than "does not exist" make the
  Go code dereference a nil FileInfo. The model has no such state.
- The regular-expression engine (`regexp.Compile`, `MatchString`) is a
  parameter `Regex`. Only backtick literals are concrete, as substring
  matches (the meaning of `QuoteMeta`).
- Ignore.Compile, UTF-8 check: strings are sequences of runes, so the UTF-8
  validity check on a literal's inner bytes cannot fail in the model.
  Compiling a quoted literal never fails.
- RosterFile.Roster.New: the model requires the default patterns to compile.
  The Go code ignores that error, which a real regexp engine never produces
  for `\.git` and `\.svn`.
- The worker pool, channels, funnels and mutexes of Walk: the model runs one
  worker over the candidates in walk order. The Go code may emit new and
  modified paths in any interleaving. With distinct candidate paths every
  candidate is judged against the index at scan start (`Scan.RunEmissions`),
  so which paths are emitted does not depend on which worker runs first.
- Walk.Walk: requires at least one worker (`Workers(thr, numCPU) >= 1`). With
  none (a negative thread count, or 0 on a machine reporting no CPU) the Go
  code blocks forever on the first candidate it dispatches; the model does
  not describe that hang.
- Scan.RunEmissions, ScanProperties.ScanNewModDisjoint, FailedCandidateDeleted,
  AllUnchanged and ScanIdempotent assume that no two candidates share a
  relative path (`Scan.DistinctPaths`): `filepath.Walk` visits each path once,
  and stripping the shared prefix keeps them distinct. Without it, two
  accepted statuses for one path can make that path both new and modified.
- The enumeration by `filepath.Walk` (lexical order, symlinks, error
  callbacks) becomes a given sequence of entries.
- `Runtime.Dep` is stored but the code never reads it, so the model carries it
  without effect.
- The error-message methods of the three error types, `StatusPermsMask`
  (unused by the core), `Permissions`, and the diagnostics printed by the
  workers.
- `roster.go` and `cmd/roster` (the command-line front end) are not part of
  this model.
