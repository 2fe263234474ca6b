# ooni-pipeline: the sanitise and import lifecycles

This is a Dafny model of the two batch scripts of the OONI pipeline that move
measurement reports (`.yamloo` files) from the collectors to the public
store:

- **sanitise** (`ooni/pipeline/task/sanitise.py`). It first checks that the
  archive, reports and sanitised directories and the bridge mapping file
  exist, and calls `sys.exit(1)` if one is missing. For every report found
  under the reports directory it then:
  1. sets the header's `report_file` to the path relative to that directory;
  2. writes the header and then the entries to
     `<sanitised_directory>/<basename>`;
  3. archives the raw file as `<archive_directory>/<basename>.gz`;
  4. deletes the raw file;
  5. counts the report.
- **import** (`tasks/import.py`). For every report under `/data/sanitized`:
  1. checks `probe_cc` against `[a-zA-Z]{2}`;
  2. sets `report_file` to `/data/public/<cc>/<basename>`;
  3. inserts the header into `reports`;
  4. inserts every non-blank entry into `measurements`, tagged with the
     header's identifier;
  5. only then moves the file to its public path.

  An exception abandons that one file and the loop goes on.

Modules:

- `Paths` covers `os.path` on POSIX: basename, join, suffix and prefix tests.
- `Documents` abstracts YAML streams. A document is blank or a mapping. A file
  holds a document stream or a gzip'd tar of another file.
- `Os` is the filesystem. It is a `FileSystem` class over a map from path to
  content, with the directories and the set of paths the process may not
  write.
- `Mongo` is the record store. It is an insert journal plus a schedule of
  insert failures.
- `Discovery` is `list_report_files`, which both scripts define identically.
- `Sanitise` and `ImportTask` are the two scripts.

Each state-changing operation is a method proved against a function of the
old state:

- `Sanitise.RunSanitise` against `SanitiseMain`;
- `ImportTask.ReportInserter`'s constructor against `ImportOne`;
- `ImportTask.ImportReports` against `ImportAll`.

The properties are proved about those functions.

Failures are inputs:

- a path in `FsState.denied` cannot be created, replaced or removed, and
  writing it raises;
- a path in `FsState.unreadable` exists but cannot be opened for reading;
- `Db.faults` says which insert attempts raise.

sanitise.py has no exception handler, so the first failing step ends the whole
sanitise run. The model follows this (`RunEnd.Crashed`). Such an uncaught
exception also ends the process with status 1; `RunEnd.Exit1` stands only for
the explicit `sys.exit(1)` calls. Import catches every
exception per file (`Outcome.Skipped`).

The header's `report_file` is computed with the corrected relative path
(`Sanitise.RelativePath`). The regex as written is modelled beside it; see
Findings.

The import accepts a country code with the check as written (first two
characters ASCII letters). The anchored check is modelled beside it as
`ImportTask.AnchoredCc`; see Findings.

## Model

| member | source | states |
|---|---|---|
| Paths.BasenameIsLastComponent | ooni/pipeline/task/sanitise.py:36 | `os.path.split(p)[-1]` is the longest '/'-free suffix of `p`: it ends `p`, holds no '/', and is preceded by '/' unless it is all of `p` |
| Paths.JoinKeepsParts | ooni/pipeline/task/sanitise.py:37 | `os.path.join(a, b)` ends with `b` and, for a relative `b`, starts with `a` |
| Paths.BasenameOfJoin | ooni/pipeline/task/sanitise.py:50 | joining a directory with a '/'-free file name gives a path whose basename is that name |
| Documents.NonBlankSpec | tasks/import.py:47-55 | the blank-skipping reader yields no blank entry, only documents of the stream, and every non-blank document |
| Documents.NonBlankAppend | tasks/import.py:53-54 | skipping blanks commutes with concatenation: stream order is kept and a blank never ends the sequence early |
| Documents.NonBlankOfBlanks | tasks/import.py:47-55 | a stream of blank documents yields no entry |
| Documents.ReadReportSplitsHeader | tasks/import.py:24-26 | reading the header succeeds exactly on a stream whose first document is a mapping, and splits the stream into that header and the rest |
| Os.Move | tasks/import.py:40 | `renames(src, dst)` puts the content of `src` at `dst` (replacing any file there), removes `src`, and changes no other path |
| Os.FileSystem.IsFile | ooni/pipeline/task/sanitise.py:62 | `os.path.isfile(p)` holds exactly when `p` is a file |
| Os.FileSystem.IsDir | ooni/pipeline/task/sanitise.py:54 | `os.path.isdir(p)` holds exactly when `p` is a directory |
| Os.FileSystem.Open | tasks/import.py:24 | opening succeeds exactly for an existing, readable file and gives its content |
| Os.FileSystem.Write | ooni/pipeline/task/sanitise.py:94-100 | writing succeeds unless the path is write-protected, replaces any existing file, and changes nothing else |
| Os.FileSystem.Remove | ooni/pipeline/task/sanitise.py:108 | `os.remove` succeeds exactly on an existing, removable file, and removes only it |
| Os.FileSystem.Renames | tasks/import.py:40 | `os.renames` succeeds exactly when the source exists and both ends are writable, and then moves the file as `Os.Move` says |
| Discovery.ListReportFiles | ooni/pipeline/task/sanitise.py:46-50 | the two nested loops of the generator yield exactly `ReportFiles(walk)`, in walk order |
| Discovery.ReportsInMembership | ooni/pipeline/task/sanitise.py:48-50 | a path is yielded for a directory exactly when it joins the directory with a listed name ending in `.yamloo` |
| Discovery.ReportFilesHaveSuffix | ooni/pipeline/task/sanitise.py:46-50 | every yielded path, and its file name, ends in `.yamloo` |
| Discovery.ReportFilesMembership | tasks/import.py:14-18 | a path is yielded exactly when some walked directory lists a `.yamloo` name that joins to it; nothing else is yielded |
| Sanitise.RelativePathRoundTrip | ooni/pipeline/task/sanitise.py:75-81 | `report_file` is defined exactly for paths under the reports directory, and the directory followed by `report_file` is the report's path |
| Sanitise.UpToNewline | ooni/pipeline/task/sanitise.py:75-76 | the `(.*)` group captures a newline-free prefix of the remainder, ending just before the first newline if there is one |
| Sanitise.AsWrittenRoundTrip | ooni/pipeline/task/sanitise.py:75-81 | the regex as written gives back the path's remainder exactly when the remainder holds no newline, and then agrees with the corrected relative path |
| Sanitise.AsWrittenTruncatesAtNewline | ooni/pipeline/task/sanitise.py:75-81 | under `/data/reports`, the file `/data/reports/a\nb.yamloo` gets `report_file` `/a` from the regex, not the remainder `/a\nb.yamloo` |
| Sanitise.ArchiveTargetName | ooni/pipeline/task/sanitise.py:36-37 | the archive's file name is the report's basename plus `.gz`; two reports share an archive exactly when they share a basename; the archive never names the report itself |
| Sanitise.SanitisedTargetName | ooni/pipeline/task/sanitise.py:83-85 | the sanitised copy keeps the report's basename and `.yamloo` suffix, and never lands on an archive name |
| Sanitise.ArchiveReport | ooni/pipeline/task/sanitise.py:33-43 | the archive under the derived name holds the raw file, replacing any archive already there; it fails, changing nothing, only where that name is write-protected |
| Sanitise.RunSanitise | ooni/pipeline/task/sanitise.py:53-115 | the script's steps, in order, leave the filesystem and end the run as `SanitiseMain` says |
| Sanitise.RawRemovedOnlyWhenArchived | ooni/pipeline/task/sanitise.py:94-108 | a report's step completes exactly when the report is readable, its stream has a header, it lies under the reports directory, and all three writes are allowed; a failed step leaves the raw file as it was; a raw file is gone only when its archive holds it |
| Sanitise.SanitisedReportShape | ooni/pipeline/task/sanitise.py:96-100 | the sanitised stream is the header (with `report_file` set, other fields kept) followed by the report's non-blank entries in order |
| Sanitise.SanitisedCopyContents | ooni/pipeline/task/sanitise.py:75-100 | after a completed step the sanitised path holds that stream, and its `report_file` prefixed with the reports directory is the raw path |
| Sanitise.SanitiseFileFrame | ooni/pipeline/task/sanitise.py:94-108 | a step changes no file but the report, its sanitised copy and its archive |
| Sanitise.CounterCountsProcessedReports | ooni/pipeline/task/sanitise.py:70-115 | `report_counter` is the number of reports fully processed; a sweep never calls `sys.exit(1)`; the final message is "no reports" exactly when the counter is 0 |
| Sanitise.CrashStopsAtReport | ooni/pipeline/task/sanitise.py:73-110 | a crashed run stops at the report being handled, after counting the ones before it |
| Sanitise.MainPreconditions | ooni/pipeline/task/sanitise.py:54-68 | the run calls `sys.exit(1)`, touching no file, exactly when one of the three directories or the mapping file is missing; a completed run counts every discovered report |
| Sanitise.SweepFrame | ooni/pipeline/task/sanitise.py:73-108 | files no report of the sweep names come out of the run unchanged |
| Sanitise.BasenameClashLosesFirst | ooni/pipeline/task/sanitise.py:36-37 | as written, two readable reports with the same basename in different directories both complete, the first raw file is removed, and their shared archive holds only the second |
| Sanitise.SanitiseLosesRawOnBasenameClash | ooni/pipeline/task/sanitise.py:53-110 | the whole task on `/r/a/x.yamloo` and `/r/b/x.yamloo` completes with two reports counted, removes the first, and leaves `/arc/x.yamloo.gz` holding only the second |
| Sanitise.NoRawReportLost | ooni/pipeline/task/sanitise.py:94-108 | however the run ends, every report it was given is unchanged in place or held by its archive |
| Mongo.InsertAppendsFresh | tasks/import.py:32 | a successful insert appends exactly the document under an identifier no earlier record has; a failed one stores nothing |
| Mongo.Store.Insert | tasks/import.py:32-37 | `insert` changes the store as `TryInsert` says and returns its identifier |
| ImportTask.MatchLettersExact | tasks/import.py:28 | `re.match("[a-zA-Z]{n}", s)` succeeds exactly when the first `n` characters of `s` are ASCII letters |
| ImportTask.ValidCcExact | tasks/import.py:28 | a country code passes exactly when its first two characters are ASCII letters, whatever follows them (no end anchor) |
| ImportTask.PublicPathShape | tasks/import.py:30 | the public path keeps the report's basename, and its path string starts with `<public_dir>/<cc>` and with `<public_dir>` |
| ImportTask.InsertEntriesJournal | tasks/import.py:35-37 | the entry loop appends a prefix of the tagged entries, in order with consecutive identifiers, and all of them exactly when it completes |
| ImportTask.RejectedReportUntouched | tasks/import.py:21-42 | a missing or unreadable file, a blank header, or a missing or invalid `probe_cc` changes neither file nor store; an accepted report always makes an insert attempt, and its header is stored exactly when that insert does not raise |
| ImportTask.ImportJournal | tasks/import.py:30-37 | an accepted report appends its header first, with `report_file` set to the public path; then its non-blank entries in order, each with `report_id` equal to the header's identifier; all of them when the file moved; earlier records are kept |
| ImportTask.ImportKeepsNumbering | tasks/import.py:32-37 | on a store whose identifiers follow insert order, one report's import keeps that numbering, so the header's identifier is one no earlier record carries |
| ImportTask.RelocatedOnlyAfterAllInserts | tasks/import.py:35-42 | the file moves exactly when the header and every entry went in and the move is allowed, and then to its public path with its content; otherwise no file changes |
| ImportTask.ImportOneFrame | tasks/import.py:21-42 | one report's import changes no file other than the report and the public paths it could be moved to |
| ImportTask.OtherBasenameNotPublic | tasks/import.py:30 | every public path of a report has the report's basename, so a file with another basename is never one of them |
| ImportTask.CcClimbsOutOfPublicDir | tasks/import.py:28-30 | as written, the country code `IT/../../tmp` passes the check, and the public path of `/data/sanitized/x.yamloo` becomes `/data/public/IT/../../tmp/x.yamloo` |
| ImportTask.AnchoredCcStaysInPlace | tasks/import.py:28-30 | with the check anchored at both ends, the public path is exactly `<public_dir>/<cc>/<basename>`, the country code holds no `/` and is neither `.` nor `..`, and the file name holds no `/` |
| ImportTask.ReportInserter.constructor | tasks/import.py:21-42 | `__init__` leaves the filesystem and the store as `ImportOne` says |
| ImportTask.ReportInserter.InsertMeasurements | tasks/import.py:35-37 | the `for entry in self` loop inserts the tagged entries as `InsertEntries` says |
| ImportTask.ReportInserter.Next | tasks/import.py:47-55 | `next` returns the first non-blank remaining entry and consumes up to it; on exhaustion the file handle is closed before iteration stops |
| ImportTask.NextYieldsNonBlank | tasks/import.py:53-55 | an entry `next` returns is never blank and is a document of the stream |
| ImportTask.ImportReports | tasks/import.py:57-58 | the script imports the discovered reports one after another, as `ImportAll` says |
| ImportTask.ImportAllAppendOnly | tasks/import.py:41-42 | across the batch, no record is ever taken back, and write and read permissions stay as they were |
| ImportTask.ImportAllFrame | tasks/import.py:57-58 | files that are neither a report of the batch nor a public path one of them could be moved to come out of the batch unchanged |
| ImportTask.OtherBasenamesNotPublic | tasks/import.py:30 | a file sharing neither the name nor the basename of any report is none of their public paths |
| ImportTask.NoImportedReportLost | tasks/import.py:40-42 | every report of the batch ends unchanged in place or, content intact, at a public path under a valid country code |
| ImportTask.InsertEntriesWithoutFaults | tasks/import.py:35-37 | when no insert raises, the entry loop inserts every entry |
| ImportTask.ImportWithoutFaults | tasks/import.py:21-40 | when no insert raises and no path is write-protected, an accepted report is moved to its public path |
| ImportTask.PublicClashLosesFirst | tasks/import.py:30-40 | as written, two accepted reports with the same country code and basename are both moved to the same public path; the second replaces the first and both source paths are gone |
| ImportTask.ImportLosesReportOnPublicClash | tasks/import.py:57-58 | importing two different `IT` reports `/s/a/x.yamloo` and `/s/b/x.yamloo` leaves the single file `/p/IT/x.yamloo` holding the second; the first is published nowhere |

## Left out

- YAML parsing and dumping are not modelled. A document is an abstract
  mapping or blank. Formatting (`explicit_start`, flow style) is not modelled,
  and neither is a parse error partway through a stream.
- tar and gzip are not modelled. An archive is the raw content wrapped with
  its member name.
- `ooni.report.Report` is not part of this model. It is taken to yield the
  header as the first document and, as entries, the non-blank documents that
  follow, as the import's `next` does.
- `os.walk` is an input sequence of `(dirpath, filenames)` entries. The model
  does not tie it to the filesystem map, does not fix its order, and does not
  model its laziness. Import moves files to `/data/public`, which lies outside
  the walked `/data/sanitized`.
- MongoDB's client, wire protocol and the `_id` that `insert` adds to the
  inserted dict are not modelled. The identifier is kept beside the record.
- Printing, the log lines chosen by `isfile` at sanitise.py:39 and 87, and the
  text of caught exceptions are left out.
- `settings` and the host, port and directory globals of import.py are left
  out. They are parameters.
- `sys.exit` is modelled only as the run ending with `Exit1` before any file
  is touched.
- Bridge sanitisation is left out. The comments at sanitise.py:8-14 describe
  it, but no code implements it.
- Python 2's `-O` (which strips the `assert` at import.py:28) is not modelled.
- Writes are all-or-nothing. A dump that fails halfway, leaving a truncated
  file, is not modelled.
- ImportTask.ImportAllAppendOnly: says nothing about directories. `os.renames`
  creates missing target directories and prunes emptied source directories,
  and the import model does not track them.
- After a caught exception the import leaves the file handle open. The model
  keeps `fhOpen`, but only `Next` states anything about it.
- Sanitise.NoRawReportLost: holds only for reports with pairwise different
  basenames, because reports with the same basename in different
  subdirectories overwrite each other's archive (see Findings). It also needs
  sanitised copies that never land on a report's own path. The source checks
  for neither.
- Sanitise.SanitisedCopyContents: assumes the sanitised path differs from the
  raw report's path. If they coincide, the `os.remove` at sanitise.py:108
  deletes the copy just written, and nothing is promised about it.
- Sanitise.RawRemovedOnlyWhenArchived: assumes the sanitised copy is not
  written over the raw report. That would happen if the sanitised directory
  were the reports directory, and then the archive would hold the sanitised
  copy.
- ImportTask.NoImportedReportLost: holds only for reports with pairwise
  different basenames, because two reports with the same country code and
  basename have the same public path, and the later one replaces the earlier
  (see Findings).
- ImportTask.ReportInserter.Next: skips any number of blank entries. The
  source skips them by recursion, so a long enough run of blanks (about a
  thousand, depending on the interpreter's recursion limit and the stack
  already in use) raises `RuntimeError`. `__init__` catches it: the inserts
  made so far stay and the file is not moved. The recursion depth is not
  modelled, so neither is that failure.
- ImportTask.PublicPathShape: paths are strings. `.`, `..` and symbolic links
  are not resolved, so "starts with" is a fact about the string, not about
  where the file ends up (see Findings for a country code holding `..`).
- Sanitise.RunSanitise: writes the corrected `report_file`
  (`Sanitise.RelativePath`), as does `Sanitise.SanitisedCopyContents`. On a
  report path holding a newline, the script as written writes the truncated
  value instead (see Findings).
- Os.FileSystem.Open: only whether a file can be opened is modelled, through
  `FsState.unreadable`. An error partway through reading is not. In sanitise,
  `tar.add` reads the raw file again, but the file was already read, so
  that read is taken to succeed.

## Findings

| source | as written | input that shows it | evidently intended | confidence | as-written member | corrected member |
|---|---|---|---|---|---|---|
| ooni/pipeline/task/sanitise.py:36-37 | the archive is named after the report's basename only, and `os.remove` follows unconditionally, so reports with the same basename in different subdirectories share one archive | reports `/r/a/x.yamloo` and `/r/b/x.yamloo` under reports directory `/r`: both are counted and removed, and `/arc/x.yamloo.gz` holds only the second | every raw report is either still in place or held by an archive of its own | not executed | Sanitise.SanitiseLosesRawOnBasenameClash | Sanitise.NoRawReportLost |
| tasks/import.py:30-40 | the public path is `<public_dir>/<cc>/<basename>` and `renames` replaces any file already there | two different reports `/s/a/x.yamloo` and `/s/b/x.yamloo`, both with `probe_cc` `IT`: only the second survives, at `/p/IT/x.yamloo` | every imported report survives at a public path of its own | not executed | ImportTask.ImportLosesReportOnPublicClash | ImportTask.NoImportedReportLost |
| tasks/import.py:28-30 | `re.match("[a-zA-Z]{2}", cc)` is anchored only at the start, so a country code holding `/` and `..` passes, and `join` puts it into the public path | `probe_cc` `IT/../../tmp` for `/data/sanitized/x.yamloo`: the public path is `/data/public/IT/../../tmp/x.yamloo`, that is `/data/tmp/x.yamloo` | a country code is exactly two letters, so the report lands in `<public_dir>/<cc>/` | not executed | ImportTask.CcClimbsOutOfPublicDir | ImportTask.AnchoredCcStaysInPlace |
| ooni/pipeline/task/sanitise.py:75-81 | `report_file` is the regex group `(.*)`, and `.` does not match a newline, so the group stops at the first newline | reports directory `/data/reports`, report `/data/reports/a\nb.yamloo`: `report_file` becomes `/a` | `report_file` is the whole remainder after the reports directory, so that the directory followed by `report_file` is the report's path | not executed | Sanitise.AsWrittenTruncatesAtNewline | Sanitise.RelativePathRoundTrip |
