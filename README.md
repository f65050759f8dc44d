# Maintenance scripts of the heavens-above application, in Dafny

The application ships four Node maintenance scripts. This project models
what each of them does to the application's directory tree, and proves what
they promise:

- `scripts/backup.js`:
  - `create` makes a `backup-<timestamp>` snapshot, copies the configured
    items into it and writes `manifest.json` with a SHA-256 checksum.
  - `upload` writes an upload log into the latest snapshot.
  - `verify` re-hashes the latest snapshot and compares.
  - `cleanup` keeps the ten greatest snapshot names and removes the rest.
- `scripts/generate-docs.js`:
  - `extractFunctions` finds function declarations line by line and gathers
    the JSDoc lines above each.
  - `generateApiDocs` runs it over the `.js` files of `src/`.
- `scripts/cleanup.js` prunes logs older than 7 days, empties `temp/`,
  prunes reports older than 30 days, then writes `reports/cleanup-<date>.json`.
- `scripts/health-check.js` runs four checks, builds a
  healthy/unhealthy report with a pass/fail summary, saves it as
  `reports/health-check-<date>.json` and exits with 0 only when healthy.

The filesystem is a value (module `Fs`). A `Tree` maps paths to nodes. Paths
are sequences of names, relative to the application root. A node is either
a directory with an ordered listing or a file with bytes and an integer
mtime. A `Disk` object holds the current tree. Its methods `MkdirP`,
`Mkdir`, `WriteFile`, `CopyFile`, `Unlink` and `RemoveTree` are the `fs`
calls the scripts make. Each states the exact new tree, and when it fails,
as the Node call throws.

The scripts' loops are methods with loop invariants. Each is proved equal to
a specification function, or to a stated final state, and the promised
properties are lemmas about those functions.

Modules:

| file | module | contents |
|---|---|---|
| `fs.dfy` | `Fs` | trees, `Put`/`Remove`, the `Disk` class |
| `wrappers.dfy` | `Wrappers` | `Option` |
| `text.dfy` | `Text` | JavaScript's `\s`, `trim()`, `split('T')[0]`, default string `sort()` |
| `snapshot.dfy` | `Snapshot` | snapshot names, latest snapshot, retention split |
| `digest.dfy` | `TreeDigest` | the byte stream `calculateChecksum` hashes |
| `copy.dfy` | `TreeCopy` | `copyDirectory` |
| `backup.dfy` | `Backup` | `createBackup`, `uploadBackup`, `verifyBackup`, `cleanupOldBackups`, `main` |
| `docs.dfy` | `Docs` | the declaration matcher, `extractFunctions`, `generateApiDocs` |
| `cleanup.dfy` | `Cleanup` | the three cleaning functions and `main` |
| `health.dfy` | `Health` | the checks, the report, saving it, `main` |

Two behaviours of `backup.js` are stated as written, not corrected:

- The manifest's `files` lists all four configured items, including those
  whose source was missing and which were skipped (`CreateBackup`).
- The stored checksum covers the snapshot before `manifest.json` is written.
  `verify` re-hashes with `manifest.json` included. So `verify` right after
  `create` fails whenever the hash tells the two streams apart
  (`FreshSnapshotFailsVerify`), that is, for a collision-free hash, unless
  the manifest serialises to nothing. In that case it passes
  (`FreshSnapshotVerifiesIfEmptyManifest`).

## Model

| member | source | states |
|---|---|---|
| Fs.Disk.MkdirP | scripts/backup.js:28 | `mkdirSync(p, {recursive: true})`: succeeds iff no file lies on the way to `p`. Afterwards every prefix of `p` is a directory and only missing ones were added. On failure nothing changes. |
| Fs.Disk.Mkdir | scripts/health-check.js:148-150 | Creating a one-name path: succeeds iff the parent is a directory and `p` is absent. Adds an empty directory, otherwise changes nothing. |
| Fs.Disk.WriteFile | scripts/backup.js:60-63 | `writeFileSync`: succeeds iff the parent is a directory and `p` is not a directory. The new tree is the old one with the file put at `p`; on failure the tree is unchanged. |
| Fs.Disk.CopyFile | scripts/backup.js:45 | `copyFileSync`: the same condition as writing. The destination gets the source's bytes. |
| Fs.Disk.Unlink | scripts/cleanup.js:30 | `unlinkSync`: succeeds iff `p` is a file, and then removes exactly it. |
| Fs.Disk.RemoveTree | scripts/backup.js:123 | `rmSync(p, {recursive: true, force: true})`: removes `p` and everything below it. A missing `p` is a no-op. |
| Text.Trim | scripts/generate-docs.js:83 | `trim()` is empty iff every character is JavaScript whitespace. Otherwise it starts at the first non-space character. |
| Text.BeforeFirst | scripts/cleanup.js:103 | `split(sep)[0]`: a prefix holding no `sep`, followed by `sep` when shorter than the input. |
| Text.LexLeTotal | scripts/backup.js:115 | The default string order of `sort()` is total. |
| Text.LexLeAntisymmetric | scripts/backup.js:115 | The default string order is antisymmetric. |
| Text.LexLeTransitive | scripts/backup.js:115 | The default string order is transitive. |
| Text.Insert | scripts/backup.js:115 | Inserting into a sorted list keeps it sorted and adds exactly that element. |
| Text.Sort | scripts/backup.js:115 | `sort()` yields a sorted permutation of its input. |
| Snapshot.Sanitize | scripts/backup.js:24 | `replace(/[:.]/g, '-')`: same length; every `:` and `.` becomes `-` and every other character stays; no `:` or `.` is left. |
| Snapshot.SnapshotName | scripts/backup.js:24-25 | The name is `backup-` followed by the sanitised timestamp. It is 7 characters longer than the timestamp and holds no `:` or `.`. |
| Snapshot.SanitizeKeepsOrder | scripts/backup.js:24 | For timestamps with their separators in the same places, sanitising keeps their order both ways. |
| Snapshot.CommonPrefixKeepsOrder | scripts/backup.js:25 | A common prefix such as `backup-` does not change the order of two names. |
| Snapshot.SnapshotNameKeepsOrder | scripts/backup.js:24-25 | Snapshot names sort in the order of their timestamps, so the greatest name is the newest snapshot. |
| Snapshot.Latest | scripts/backup.js:184-187 | `sort().pop()` gives nothing iff there are no names. Otherwise it gives a name of the list that no other name exceeds. |
| Snapshot.RetentionSplits | scripts/backup.js:118-119 | Deleted plus kept is the sorted list. With more than 10 names, exactly n-10 go and 10 stay; with at most 10, none go. |
| Snapshot.RetentionOrder | scripts/backup.js:115-119 | Every deleted name sorts before every kept name. |
| Snapshot.LatestIsKept | scripts/backup.js:184-187 | The snapshot `upload` and `verify` pick is always among those cleanup keeps. |
| TreeDigest.ProcessPath | scripts/backup.js:155-169 | The depth-first walk feeds the hash exactly the stream of the directory after what was fed before. |
| TreeDigest.CalculateChecksum | scripts/backup.js:152-173 | The checksum is SHA-256 of the contents of all files below the directory, depth first in listing order. |
| TreeDigest.SameContentSameStream | scripts/backup.js:152-173 | Two trees with equal listings and equal file contents hash the same stream: names and mtimes do not contribute. |
| TreeDigest.StreamFrame | scripts/backup.js:152-173 | The checksum of a directory depends only on what lies below it. |
| TreeDigest.NewFileExtendsStream | scripts/backup.js:60-63 | Writing a new file into a directory appends that file's bytes to the directory's stream. |
| TreeCopy.CopyDirectory | scripts/backup.js:133-150 | After the copy, every entry at relative path p below `src` exists at `dest/p` as a directory or with identical bytes, and `dest` exists. Nothing is removed. Entries outside `dest`, other than its ancestors, are unchanged, and so are entries below `dest` with no counterpart in `src`. |
| TreeCopy.CopyEntry | scripts/backup.js:140-149 | One listed entry is copied, recursively for a directory and with `copyFileSync` for a file, with the same guarantees. |
| TreeCopy.FileCopied | scripts/backup.js:147 | Copying one file mirrors it and changes nothing else. |
| Backup.CopiedNames | scripts/backup.js:38-50 | An item is copied iff its source exists at the application root. |
| Backup.CreateBackup | scripts/backup.js:21-67 | Makes `backup/backup-<timestamp>`, mirrors each configured item whose source exists and leaves skipped items absent. Writes `manifest.json` holding all four item names, version 1.0.0 and SHA-256 of the snapshot's stream before the manifest. Nothing outside the snapshot changes. |
| Backup.MakeSnapshot | scripts/backup.js:26-50 | The snapshot directory is made and the items whose source exists are copied into it, in order. |
| Backup.FinishSnapshot | scripts/backup.js:52-63 | The checksum is computed, then `manifest.json` is written. The manifest's bytes come after the hashed stream. |
| Backup.CopyItem | scripts/backup.js:39-49 | A directory item is copied with `copyDirectory` and a file item with `copyFileSync`; a missing item is skipped. |
| Backup.SnapshotNotAnItem | scripts/backup.js:25 | A snapshot name never equals an item name or `manifest.json`. |
| Backup.ManifestWritten | scripts/backup.js:60-63 | Writing the manifest appends its bytes to the snapshot's stream and leaves the copies alone. |
| Backup.UploadBackup | scripts/backup.js:69-90 | Writes `upload-log.json` (timestamp, path, `uploaded`, the fixed URL) into the snapshot. This fails, and changes nothing, exactly when that name is a directory. |
| Backup.VerifyBackup | scripts/backup.js:92-108 | Fails with "manifest not found" iff `manifest.json` is absent. Passes iff the manifest is a file whose parsed checksum equals SHA-256 of the current stream, which includes `manifest.json`. Otherwise it fails with the integrity error. |
| Backup.FreshSnapshotFailsVerify | scripts/backup.js:57-105 | Verifying a snapshot exactly as `create` left it fails the integrity check whenever the hash is collision-free and the manifest is non-empty. |
| Backup.FreshSnapshotVerifiesIfEmptyManifest | scripts/backup.js:57-105 | The stored checksum matches after `create` when the manifest serialises to nothing. |
| Backup.SnapshotDirs | scripts/backup.js:113-114 | The candidates are exactly the directories listed under the backup root; files there are never candidates. |
| Backup.DirsAmong | scripts/backup.js:114 | `filter(isDirectory)` keeps exactly the listed names that are directories. |
| Backup.CleanupOldBackups | scripts/backup.js:110-131 | Exactly the snapshots `ToDelete` picks from the sorted directories are removed, with everything below them. Every other path keeps its node, and the root listing loses only their names. |
| Backup.RemoveSnapshot | scripts/backup.js:121-125 | One `rmSync` extends the set of removed snapshots by one. |
| Backup.CleanupRemovesOnlyOldSnapshots | scripts/backup.js:110-131 | Everything removed is a snapshot directory, and the latest snapshot is never removed. |
| Backup.WithBackupRoot | scripts/backup.js:15-19 | At start `backup/` exists afterwards. An existing one is left as it was; a new one is an empty directory holding no snapshot. |
| Backup.Run | scripts/backup.js:176-229 | On the tree `WithBackupRoot` leaves: `help` succeeds and, like `verify`, changes nothing more. A file in place of the backup root makes every other command fail, changing nothing. `create` succeeds, and the tree is what `Created` describes for snapshot `backup-<timestamp>`. `upload` fails with "No backup found" iff there is no snapshot, changing nothing more; otherwise it writes `upload-log.json` into the greatest snapshot name exactly as `UploadBackup` does. `verify` gives "No backup found" or `VerifyOutcome` of the greatest name. `cleanup` succeeds, removing exactly `ToDelete` of the snapshot directories. |
| Backup.NewBackupRootIsEmpty | scripts/backup.js:15-19 | Without a backup root there are no snapshot directories. |
| Docs.WordEnd | scripts/generate-docs.js:63 | `\w+` is greedy: the run ends at the first non-word character. |
| Docs.MatchAt | scripts/generate-docs.js:63-71 | A capture of the regex at a position is a non-empty run of word characters. |
| Docs.FindName | scripts/generate-docs.js:63-71 | `line.match(...)` captures a non-empty word. |
| Docs.DeclarationName | scripts/generate-docs.js:63 | A line `function NAME...` declares `NAME`. |
| Docs.ConstName | scripts/generate-docs.js:63 | A line that opens with `const`, spaces, a name, `=` between optional spaces, and `function` or `async function` declares that name. |
| Docs.ConstMatch | scripts/generate-docs.js:63 | The first alternative fails on a `const` line, so the capture is the second alternative's name. |
| Docs.FunctionKeywordMatches | scripts/generate-docs.js:63 | `(?:async\s+)?function` matches `function` and `async` followed by spaces and `function`. |
| Docs.PropertyName | scripts/generate-docs.js:63 | A line `NAME: function...` declares `NAME` for every word `NAME`, including words that begin with `function` or `const`. |
| Docs.KeywordInName | scripts/generate-docs.js:63 | When `function` or `const` starts `NAME:`, it lies within `NAME`, and no space follows it, so the first two alternatives fail. |
| Docs.PropertyAtName | scripts/generate-docs.js:63 | The third alternative captures the property's name. |
| Docs.SplitLines | scripts/generate-docs.js:57 | `split('\n')` gives at least one piece, none holds a line break, and joining them gives the content back. |
| Docs.SplitJoin | scripts/generate-docs.js:57 | Splitting undoes joining lines that hold no line break. |
| Docs.DocLineIsTrimmedStar | scripts/generate-docs.js:78 | A doc line is one whose trimmed form starts with `*`. |
| Docs.StripStarShape | scripts/generate-docs.js:79 | Stripping leaves a suffix of the line, shorter for a doc line and the same for any other line. |
| Docs.DocStartBlock | scripts/generate-docs.js:77-81 | The scan stops at the first line above that is not a doc line, or at the top; every line it passes is a doc line. |
| Docs.Describe | scripts/generate-docs.js:77-85 | The description is "No description available" or trims to something non-empty, and it is the default when no doc line is above. |
| Docs.Matching | scripts/generate-docs.js:61-65 | The matching lines come in ascending order and each matches. |
| Docs.MatchingComplete | scripts/generate-docs.js:61-65 | Every matching line is among them. |
| Docs.MapEntries | scripts/generate-docs.js:70-74 | One entry per declaration line, in order. |
| Docs.EntryOfDeclaration | scripts/generate-docs.js:61-93 | Entry k comes from the k-th declaration line. |
| Docs.ExtractSound | scripts/generate-docs.js:61-93 | Every entry names a declaration line. It has that line's name, its 0-based index plus 1, and its gathered description. |
| Docs.ExtractOrdered | scripts/generate-docs.js:61-93 | Entries have strictly increasing line numbers, one per declaration line: none dropped or duplicated. |
| Docs.ExtractEmpty | scripts/generate-docs.js:56-93 | The result is empty iff no line declares a function. |
| Docs.ReadDocLines | scripts/generate-docs.js:76-81 | The `while` loop prepends each stripped doc line plus a space. The result is the doc block read top to bottom. |
| Docs.DocStep | scripts/generate-docs.js:78-80 | One turn of the backward scan. |
| Docs.DocStop | scripts/generate-docs.js:78 | The scan stops at a non-doc line or the top. |
| Docs.GatherDescription | scripts/generate-docs.js:76-85 | The description of the declaration, with the default when it trims to empty. |
| Docs.ExtractFunctions | scripts/generate-docs.js:55-94 | The one-slot buffer loop returns exactly the specified list of entries. |
| Docs.PushDeclaration | scripts/generate-docs.js:65-85 | Pushing the pending entry and starting a new one extends the entries by the new declaration's entry. |
| Docs.NonDeclarationStep | scripts/generate-docs.js:63-65 | A line that declares nothing adds no entry. |
| Docs.DeclarationStep | scripts/generate-docs.js:65-85 | A declaration line adds its entry at the end. |
| Docs.FilesDocsSound | scripts/generate-docs.js:34-49 | Every document is for a `.js` file of `src` whose extracted function list is non-empty, and lists exactly those functions. |
| Docs.FilesDocsComplete | scripts/generate-docs.js:34-49 | Every `.js` file with at least one function has its document. |
| Docs.FilesDocsFails | scripts/generate-docs.js:34-49 | Generation fails iff some `.js` entry is not a file, and then it names such an entry. |
| Docs.ApiDocs | scripts/generate-docs.js:25-53 | A missing `src` gives no documents; a file in place of `src` fails. |
| Docs.FailureStops | scripts/generate-docs.js:34-49 | After the first failure, later entries change nothing. |
| Docs.FilesDocsStep | scripts/generate-docs.js:35-47 | One entry: skipped unless `.js`, fails if not a file, added only when functions were found. |
| Docs.GenerateApiDocs | scripts/generate-docs.js:25-53 | The loop over the listing of `src` returns exactly `ApiDocs`. |
| Cleanup.Selected | scripts/cleanup.js:25-34 | The names the rule selects, in listing order, without repeats. |
| Cleanup.Blocked | scripts/cleanup.js:25-34 | The position of the first selected entry whose unlink throws, because it is a directory. |
| Cleanup.RemoveAll | scripts/cleanup.js:25-34 | Removing the named entries removes exactly them and what lies below them, and drops them from the listing. |
| Cleanup.Sweep | scripts/cleanup.js:13-37 | The shared loop: each selected entry is unlinked and counted. A missing directory is a no-op, and the first unlink that throws stops the run. Result and tree equal `SweepResult` and `SweepTree`. |
| Cleanup.CleanOldLogs | scripts/cleanup.js:13-37 | `cleanOldLogs` is the sweep of `logs` with the rule mtime < now - 604800000. |
| Cleanup.CleanTempFiles | scripts/cleanup.js:40-58 | `cleanTempFiles` is the sweep of `temp` selecting every entry. |
| Cleanup.CleanOldReports | scripts/cleanup.js:61-85 | `cleanOldReports` is the sweep of `reports` with the rule mtime < now - 2592000000. |
| Cleanup.MissingDirIsNoOp | scripts/cleanup.js:15-18 | A missing directory deletes nothing and reports so. |
| Cleanup.SweepDeletesSelected | scripts/cleanup.js:25-34 | After a completed sweep, an entry is gone iff the rule selected it, and every deleted entry was a file. |
| Cleanup.SweepFrame | scripts/cleanup.js:25-34 | A sweep creates nothing. Outside the directory nothing changes, and every surviving entry keeps its node. |
| Cleanup.SweepCount | scripts/cleanup.js:24-36 | The reported count equals the number of distinct entries deleted. |
| Cleanup.OldLogsRule | scripts/cleanup.js:21-29 | A log survives iff its mtime is at or after now - 604800000. |
| Cleanup.OldReportsRule | scripts/cleanup.js:69-77 | A report survives iff its mtime is at or after now - 2592000000. |
| Cleanup.TempEmptied | scripts/cleanup.js:47-55 | A completed temp sweep leaves `temp` empty and counts every entry it had. |
| Cleanup.SelectedAll | scripts/cleanup.js:50-55 | When the rule selects every name, all are selected in order. |
| Cleanup.ReportName | scripts/cleanup.js:103 | `cleanup-<date>.json`, where the date is the ISO time up to its first `T`. |
| Cleanup.CleanupRun | scripts/cleanup.js:88-110 | The run ends with exit code 0 or 1 and leaves a well-formed tree. |
| Cleanup.Run | scripts/cleanup.js:88-110 | `main` runs logs, temp, reports, then writes the report. Its exit code and tree are those of `CleanupRun`. |
| Cleanup.ReportWrittenLast | scripts/cleanup.js:90-104 | Exit 0 means all three steps completed and the report file holds the serialised report. It was written after the reports sweep, so this run never prunes it. |
| Cleanup.SweepKeepsDirs | scripts/cleanup.js:25-34 | A sweep never adds or removes a directory at or above the swept level. |
| Health.AbsentMembers | scripts/health-check.js:22-31 | `missing` holds exactly the required paths that do not exist. |
| Health.CheckFileSystem | scripts/health-check.js:12-34 | `missing` is the absent required paths in configuration order. The check passes iff all four exist. |
| Health.CheckDependencies | scripts/health-check.js:36-60 | Passes iff `package.json` is a readable file that parses and every dependency it names loads. |
| Health.MissingManifestFailsTwice | scripts/health-check.js:15-40 | Without `package.json` both the file-system and the dependency checks fail. |
| Health.CheckApplicationLogic | scripts/health-check.js:62-95 | Passes iff every existing main file is a file whose content parses. With no main file present it passes. |
| Health.OnlyPresentFilesMatter | scripts/health-check.js:76-88 | The check depends only on the main files that exist. |
| Health.CheckDataDirectory | scripts/health-check.js:97-120 | Passes iff `public/data` is not a file. It passes when the directory is absent or empty, and fails only when listing would throw. |
| Health.PassedPlusFailed | scripts/health-check.js:139-143 | passed + failed = total. |
| Health.PassedAllIff | scripts/health-check.js:130-141 | All checks passed iff passed = total. |
| Health.ReportMirrorsChecks | scripts/health-check.js:130-143 | One line per check with its name, `pass` iff the check passed. Healthy iff every check passed, iff passed = total, iff failed = 0. |
| Health.FourChecks | scripts/health-check.js:122-144 | Exactly four checks in the order File System, Dependencies, Application Logic, Data Directory; passed + failed = 4. Healthy iff all four conditions hold. |
| Health.ReportName | scripts/health-check.js:152 | `health-check-<date>.json`, where the date is the ISO time up to its first `T`. |
| Health.WithReportsDir | scripts/health-check.js:147-150 | `reports` exists afterwards and is untouched if it existed. |
| Health.SaveReport | scripts/health-check.js:147-153 | The report is saved, healthy or not, iff `reports` is not a file and the report path is not a directory. Then the tree is the one with `reports/` created when missing and the report file put in it. Otherwise only `reports/` may have been created. |
| Health.GenerateHealthReport | scripts/health-check.js:122-156 | The report is built from the four checks on the tree as it was, and the save is `SaveReport`. |
| Health.Save | scripts/health-check.js:146-153 | Creating `reports` when missing, then writing the file, is `SaveReport`. |
| Health.HealthRun | scripts/health-check.js:159-183 | The run exits with 0 or 1 and leaves a well-formed tree. |
| Health.Run | scripts/health-check.js:159-183 | `main`'s exit code and tree are those of `HealthRun`. |
| Health.ExitZeroIffHealthy | scripts/health-check.js:171-177 | Exit 0 iff all four checks pass and the report could be saved; then the report file holds the serialised report. |

## Left out

- Console output, emoji logging and the help text are not modelled. Each
  script's `process.exit` is modelled only as its exit code.
- The clock is parameters. `Date.now()` is an integer and each
  `toISOString()` call is a string. Every node created by one operation gets
  the same mtime `now`.
- SHA-256 is an uninterpreted function on byte sequences. A collision-free
  hash is assumed only by `FreshSnapshotFailsVerify`.
- `JSON.stringify` and `JSON.parse` are parameters. Manifests, logs and
  reports are records.
- Decoding a file as UTF-8 is a parameter.
- `require(dep)` in the dependency check and `new Function(content)` in the
  application-logic check are boolean oracles.
- A `package.json` that parses to `null` is treated like a parse failure.
- Directory listing order is part of the tree. New entries go at the end of
  their parent's listing.
- Writing or removing an entry does not update its parent directory's mtime.
- Strings are sequences of code points. JavaScript's `sort()` compares UTF-16
  code units, which can differ outside the Basic Multilingual Plane.
- The cloud upload transfers nothing. `UploadBackup` writes only the log.
- generate-docs.js is not modelled beyond `generateApiDocs`. Creating
  `docs/` and `docs/build`, the HTML and README templates and writing them
  are presentation.
- `async`/`await` in the `main` functions is left out, since nothing is
  awaited.
- Backup.CreateBackup: requires the snapshot name to be absent. Two
  snapshots made in the same millisecond, where `mkdirSync` would reuse the
  directory, are not modelled.
- TreeCopy.CopyDirectory: requires that no file lies on the way to the
  destination, and that no source entry meets a destination entry of the
  other kind. These are the cases where `mkdirSync` or `copyFileSync`
  throws; their partial effects are not modelled. It also requires that
  neither of source and destination lies inside the other: copying a
  directory into itself is not modelled. Every call in `createBackup`
  meets this.
- Health.SaveReport: `mkdirSync(reports, {recursive: true})` on a one-name path
  is modelled as a plain directory creation. A file named `reports` makes
  it fail, and the save then fails too.
- Backup.Run: a file in place of the backup root ends every command except
  `help` with an error. The model gives no message for it. The
  `mkdirSync(backupDir, {recursive: true})` at load time runs only when
  `backup` is missing. There it is modelled as creating one directory under
  the root, which is what it does.
- Fs errors that the scripts catch or ignore (permissions, I/O errors) are
  not modelled. Only the structural errors are: a missing path, a file where
  a directory is needed, and a directory where a file is needed.
