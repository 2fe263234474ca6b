/** The sanitise task (`ooni/pipeline/task/sanitise.py`): for every
    `.yamloo` file under the reports directory, write a copy with the header's
    `report_file` set to the path relative to that directory into the
    sanitised directory, archive the raw file as `<basename>.gz`, then delete
    the raw file. There is no exception handling in the task: the first
    failing step ends the whole run. */
module Sanitise {

  import opened Wrappers
  import opened Paths
  import opened Documents
  import opened Os
  import opened Discovery

  /** The four locations the task reads from its settings. */
  datatype Config = Config(archiveDir: Path, reportsDir: Path, bridgeDbMappingFile: Path, sanitisedDir: Path)

  /** The closing log line of a completed run. */
  datatype Message = ReportsArchived(count: nat) | NoReportsFound(directory: Path)

  /** How a run ends: `sys.exit(1)` on a missing location, an uncaught
      exception while processing `at`, or a completed sweep. */
  datatype RunEnd =
    | Exit1(missing: Path)
    | Crashed(count: nat, at: Path)
    | Completed(count: nat, message: Message)

  datatype Run = Run(fs: FsState, end: RunEnd)

  /** The files after one report was handled, and whether every step of it
      succeeded. */
  datatype Step = Step(files: map<Path, Content>, done: bool)

  const ArchiveSuffix: string := ".gz"

  /** Where `archive_report` writes: the archive directory joined with the
      report's basename, plus `.gz`. */
  function ArchiveTarget(archiveDir: Path, reportPath: Path): Path {
    Join(archiveDir, Basename(reportPath)) + ArchiveSuffix
  }

  /** Where the sanitised copy goes: the sanitised directory joined with the
      report's basename. */
  function SanitisedTarget(sanitisedDir: Path, reportPath: Path): Path {
    Join(sanitisedDir, Basename(reportPath))
  }

  /** The header's `report_file`: what follows the reports directory in the
      report's path; `None` where the path does not start with it (the regex
      does not match and `match.group` raises). */
  function RelativePath(root: Path, p: Path): Option<Path> {
    if StartsWith(p, root) then Some(p[|root|..]) else None
  }

  /** `report_file` is defined exactly for paths under the reports directory,
      and prefixing it with that directory gives back the report's path. */
  lemma RelativePathRoundTrip(root: Path, p: Path)
    ensures RelativePath(root, p).Some? <==> StartsWith(p, root)
    ensures RelativePath(root, p).Some? ==> root + RelativePath(root, p).value == p
  {
    if StartsWith(p, root) {
      assert p == p[..|root|] + p[|root|..];
    }
  }

  /** The text a regex `(.*)` group captures at the start of `s`: `.` does
      not match a newline, so capture stops at the first one. */
  function UpToNewline(s: string): (r: string)
    ensures StartsWith(s, r) && '\n' !in r
    ensures |r| < |s| ==> s[|r|] == '\n'
  {
    if s == [] || s[0] == '\n' then []
    else
      var r := [s[0]] + UpToNewline(s[1..]);
      assert s == [s[0]] + s[1..];
      r
  }

  /** `re.search("^" + re.escape(reports_directory) + "(.*)", report_file).group(1)`
      exactly as the task computes it. */
  function RelativePathAsWritten(root: Path, p: Path): Option<Path> {
    if StartsWith(p, root) then Some(UpToNewline(p[|root|..])) else None
  }

  /** The regex as written gives back the path's remainder exactly when that
      remainder holds no newline. */
  lemma AsWrittenRoundTrip(root: Path, p: Path)
    requires StartsWith(p, root)
    ensures RelativePathAsWritten(root, p).Some?
    ensures root + RelativePathAsWritten(root, p).value == p <==> '\n' !in p[|root|..]
    ensures '\n' !in p[|root|..] ==> RelativePathAsWritten(root, p) == RelativePath(root, p)
  {
    RelativePathRoundTrip(root, p);
    var tail := p[|root|..];
    var r := UpToNewline(tail);
    assert p == root + tail;
    if '\n' !in tail {
      assert r == tail;
    } else {
      assert |r| < |tail|;
      assert |root + r| < |p|;
    }
  }

  /** A report under `/data/reports` whose file name holds a newline gets a
      truncated `report_file`. */
  lemma AsWrittenTruncatesAtNewline()
    ensures RelativePathAsWritten("/data/reports", "/data/reports/a\nb.yamloo") == Some("/a")
    ensures "/data/reports" + "/a" != "/data/reports/a\nb.yamloo"
    ensures RelativePath("/data/reports", "/data/reports/a\nb.yamloo") == Some("/a\nb.yamloo")
  {
    var root, p := "/data/reports", "/data/reports/a\nb.yamloo";
    assert StartsWith(p, root);
    assert p[|root|..] == "/a\nb.yamloo";
    assert UpToNewline("\nb.yamloo") == [];
    assert UpToNewline("a\nb.yamloo") == "a";
    assert UpToNewline("/a\nb.yamloo") == "/a";
  }

  /** The archive name depends on the report's basename only, sits directly
      in the archive directory, and never names the report itself. */
  lemma ArchiveTargetName(archiveDir: Path, p: Path, q: Path)
    ensures Basename(ArchiveTarget(archiveDir, p)) == Basename(p) + ArchiveSuffix
    ensures ArchiveTarget(archiveDir, p) == ArchiveTarget(archiveDir, q) <==> Basename(p) == Basename(q)
    ensures ArchiveTarget(archiveDir, p) != p
  {
    BasenameIsLastComponent(p);
    BasenameIsLastComponent(q);
    BasenameOfJoin(archiveDir, Basename(p));
    BasenameAppend(Join(archiveDir, Basename(p)), ArchiveSuffix);
    BasenameOfJoin(archiveDir, Basename(q));
    BasenameAppend(Join(archiveDir, Basename(q)), ArchiveSuffix);
    if ArchiveTarget(archiveDir, p) == ArchiveTarget(archiveDir, q) {
      assert Basename(p) + ArchiveSuffix == Basename(q) + ArchiveSuffix;
      assert Basename(p) == (Basename(p) + ArchiveSuffix)[..|Basename(p)|];
    }
  }

  /** The sanitised copy keeps the report's basename, and for a `.yamloo`
      report it is never an archive name. */
  lemma SanitisedTargetName(sanitisedDir: Path, archiveDir: Path, p: Path, q: Path)
    requires EndsWith(p, ReportSuffix)
    ensures Basename(SanitisedTarget(sanitisedDir, p)) == Basename(p)
    ensures EndsWith(SanitisedTarget(sanitisedDir, p), ReportSuffix)
    ensures SanitisedTarget(sanitisedDir, p) != ArchiveTarget(archiveDir, q)
  {
    var b, t := Basename(p), SanitisedTarget(sanitisedDir, p);
    BasenameIsLastComponent(p);
    BasenameOfJoin(sanitisedDir, b);
    ReportSuffixIsPlain();
    BasenameKeepsSuffix(p, ReportSuffix);
    JoinKeepsParts(sanitisedDir, b);
    EndsWithTrans(t, b, ReportSuffix);
    var a := ArchiveTarget(archiveDir, q);
    assert a[|a| - |ArchiveSuffix|..] == ArchiveSuffix;
    SuffixesDiffer(a, t);
  }

  /** The sanitised document stream: the header with `report_file` set,
      followed by the report's entries in order. */
  function SanitisedReport(header: Mapping, relative: Path, rest: seq<Document>): seq<Document> {
    [Doc(header["report_file" := Str(relative)])] + AsDocuments(NonBlank(rest))
  }

  /** One pass of the loop body over `p`: read, write the sanitised copy,
      archive the raw file, remove it. A step that raises leaves the files as
      they were at that point and is not `done`. */
  function SanitiseFile(fs: FsState, cfg: Config, p: Path): Step {
    var report := if p in fs.files && p !in fs.unreadable then ReadReport(fs.files[p]) else None;
    var relative := RelativePath(cfg.reportsDir, p);
    if report.None? || relative.None? then Step(fs.files, false)
    else
      var target := SanitisedTarget(cfg.sanitisedDir, p);
      if target in fs.denied then Step(fs.files, false)
      else
        var written := fs.files[target := Docs(SanitisedReport(report.value.header, relative.value, report.value.rest))];
        var archive := ArchiveTarget(cfg.archiveDir, p);
        if archive in fs.denied then Step(written, false)
        else
          var archived := written[archive := TarGz(p, written[p])];
          if p in fs.denied then Step(archived, false)
          else Step(archived - {p}, true)
  }

  /** The loop from the current file on, with `counter` reports done so far. */
  function SanitiseFrom(fs: FsState, cfg: Config, paths: seq<Path>, counter: nat): Run
    decreases |paths|
  {
    if paths == [] then
      Run(fs, Completed(counter, if counter > 0 then ReportsArchived(counter) else NoReportsFound(cfg.reportsDir)))
    else
      var s := SanitiseFile(fs, cfg, paths[0]);
      if s.done then SanitiseFrom(fs.(files := s.files), cfg, paths[1..], counter + 1)
      else Run(fs.(files := s.files), Crashed(counter, paths[0]))
  }

  /** The whole task: the four existence checks in source order, then the
      sweep over the reports found under the reports directory. */
  function SanitiseMain(fs: FsState, cfg: Config, walk: seq<WalkEntry>): Run {
    if cfg.archiveDir !in fs.dirs then Run(fs, Exit1(cfg.archiveDir))
    else if cfg.reportsDir !in fs.dirs then Run(fs, Exit1(cfg.reportsDir))
    else if cfg.bridgeDbMappingFile !in fs.files then Run(fs, Exit1(cfg.bridgeDbMappingFile))
    else if cfg.sanitisedDir !in fs.dirs then Run(fs, Exit1(cfg.sanitisedDir))
    else SanitiseFrom(fs, cfg, ReportFiles(walk), 0)
  }

  /** `archive_report`: store the raw file under its archive name, replacing
      any archive already there. */
  method ArchiveReport(fs: FileSystem, archiveDir: Path, reportPath: Path) returns (ok: bool)
    requires reportPath in fs.files && reportPath !in fs.unreadable
    modifies fs
    ensures ok <==> ArchiveTarget(archiveDir, reportPath) !in old(fs.denied)
    ensures fs.State() == if ok then
      old(fs.State()).(files := old(fs.files)[ArchiveTarget(archiveDir, reportPath) := TarGz(reportPath, old(fs.files)[reportPath])])
      else old(fs.State())
  {
    var tarFile := ArchiveTarget(archiveDir, reportPath);
    var overwriting := fs.IsFile(tarFile);  // only chooses the log line
    var raw := fs.Open(reportPath);
    ok := fs.Write(tarFile, TarGz(reportPath, raw.value));
  }

  /** `main`: the existence checks, then the loop over the discovered reports. */
  method RunSanitise(fs: FileSystem, cfg: Config, walk: seq<WalkEntry>) returns (end: RunEnd)
    modifies fs
    ensures Run(fs.State(), end) == SanitiseMain(old(fs.State()), cfg, walk)
  {
    var present := fs.IsDir(cfg.archiveDir);
    if !present {
      return Exit1(cfg.archiveDir);
    }
    present := fs.IsDir(cfg.reportsDir);
    if !present {
      return Exit1(cfg.reportsDir);
    }
    present := fs.IsFile(cfg.bridgeDbMappingFile);
    if !present {
      return Exit1(cfg.bridgeDbMappingFile);
    }
    present := fs.IsDir(cfg.sanitisedDir);
    if !present {
      return Exit1(cfg.sanitisedDir);
    }

    var reportCounter: nat := 0;
    var reportFiles := ListReportFiles(walk);
    ghost var start := fs.State();
    var i := 0;
    while i < |reportFiles|
      invariant 0 <= i <= |reportFiles|
      invariant reportCounter == i
      invariant fs.dirs == start.dirs && fs.denied == start.denied && fs.unreadable == start.unreadable
      invariant SanitiseFrom(fs.State(), cfg, reportFiles[i..], reportCounter) == SanitiseFrom(start, cfg, reportFiles, 0)
    {
      var reportFile := reportFiles[i];
      assert reportFiles[i..][0] == reportFile && reportFiles[i..][1..] == reportFiles[i + 1..];
      var relative := RelativePath(cfg.reportsDir, reportFile);
      var raw := fs.Open(reportFile);
      var report := if raw.Some? then ReadReport(raw.value) else None;
      if report.None? || relative.None? {
        return Crashed(reportCounter, reportFile);
      }
      var sanitisedName := SanitisedTarget(cfg.sanitisedDir, reportFile);
      var overwriting := fs.IsFile(sanitisedName);  // only chooses the log line
      var ok := fs.Write(sanitisedName, Docs(SanitisedReport(report.value.header, relative.value, report.value.rest)));
      if !ok {
        return Crashed(reportCounter, reportFile);
      }
      ok := ArchiveReport(fs, cfg.archiveDir, reportFile);
      if !ok {
        return Crashed(reportCounter, reportFile);
      }
      ok := fs.Remove(reportFile);
      if !ok {
        return Crashed(reportCounter, reportFile);
      }
      reportCounter := reportCounter + 1;
      i := i + 1;
    }
    end := Completed(reportCounter, if reportCounter > 0 then ReportsArchived(reportCounter) else NoReportsFound(cfg.reportsDir));
  }

  // ---------------------------------------------------------------------
  // Properties of one step

  /** One report's step: it succeeds exactly when the report can be read and
      none of the three writes is refused; a successful step leaves the
      header-first sanitised copy and the archive of the raw file and no raw
      file; a failed step leaves the raw file as it was. The raw file is
      therefore gone only once its archive holds it. */
  lemma RawRemovedOnlyWhenArchived(fs: FsState, cfg: Config, p: Path)
    requires p in fs.files
    requires SanitisedTarget(cfg.sanitisedDir, p) != p
    ensures var s := SanitiseFile(fs, cfg, p);
      && (s.done <==> p !in fs.unreadable && ReadReport(fs.files[p]).Some? && StartsWith(p, cfg.reportsDir)
                      && SanitisedTarget(cfg.sanitisedDir, p) !in fs.denied
                      && ArchiveTarget(cfg.archiveDir, p) !in fs.denied && p !in fs.denied)
      && (!s.done ==> p in s.files && s.files[p] == fs.files[p])
      && (s.done ==> p !in s.files)
      && (p !in s.files ==> ArchiveTarget(cfg.archiveDir, p) in s.files
                            && s.files[ArchiveTarget(cfg.archiveDir, p)] == TarGz(p, fs.files[p]))
  {
    ArchiveTargetName(cfg.archiveDir, p, p);
    RelativePathRoundTrip(cfg.reportsDir, p);
  }

  /** The sanitised stream starts with the header, whose `report_file` is
      the relative path and whose other fields are kept, and continues with
      the report's non-blank entries in order. */
  lemma SanitisedReportShape(header: Mapping, relative: Path, rest: seq<Document>)
    ensures var out := SanitisedReport(header, relative, rest);
      && |out| == 1 + |NonBlank(rest)|
      && out[0].Doc? && out[0].fields.Keys == header.Keys + {"report_file"}
      && out[0].fields["report_file"] == Str(relative)
      && (forall k :: k in header && k != "report_file" ==> out[0].fields[k] == header[k])
      && (forall i :: 1 <= i < |out| ==> out[i] == Doc(NonBlank(rest)[i - 1]))
      && (forall i :: 1 <= i < |out| ==> !IsBlank(out[i]))
  {
    NonBlankSpec(rest);
  }

  /** What a completed step writes: the sanitised copy of the report, with
      a `report_file` that the reports directory prefixes back to the raw
      path. */
  lemma SanitisedCopyContents(fs: FsState, cfg: Config, p: Path)
    requires p in fs.files && EndsWith(p, ReportSuffix)
    requires SanitisedTarget(cfg.sanitisedDir, p) != p
    ensures var s := SanitiseFile(fs, cfg, p);
      s.done ==>
        && RelativePath(cfg.reportsDir, p).Some?
        && cfg.reportsDir + RelativePath(cfg.reportsDir, p).value == p
        && SanitisedTarget(cfg.sanitisedDir, p) in s.files
        && s.files[SanitisedTarget(cfg.sanitisedDir, p)]
           == Docs(SanitisedReport(ReadReport(fs.files[p]).value.header, RelativePath(cfg.reportsDir, p).value,
                                   ReadReport(fs.files[p]).value.rest))
  {
    RelativePathRoundTrip(cfg.reportsDir, p);
    var s := SanitiseFile(fs, cfg, p);
    if s.done {
      var target, archive := SanitisedTarget(cfg.sanitisedDir, p), ArchiveTarget(cfg.archiveDir, p);
      SanitisedTargetName(cfg.sanitisedDir, cfg.archiveDir, p, p);
      var report, relative := ReadReport(fs.files[p]).value, RelativePath(cfg.reportsDir, p).value;
      var written := fs.files[target := Docs(SanitisedReport(report.header, relative, report.rest))];
      var archived := written[archive := TarGz(p, written[p])];
      assert target != p && target != archive;
      assert s == Step(archived - {p}, true);
      assert (archived - {p})[target] == written[target];
    }
  }

  /** A step touches no file but the report, its sanitised copy and its
      archive. */
  lemma SanitiseFileFrame(fs: FsState, cfg: Config, p: Path, q: Path)
    requires q != p && q != SanitisedTarget(cfg.sanitisedDir, p) && q != ArchiveTarget(cfg.archiveDir, p)
    ensures var s := SanitiseFile(fs, cfg, p);
      (q in s.files <==> q in fs.files) && (q in fs.files ==> s.files[q] == fs.files[q])
  {
  }

  // ---------------------------------------------------------------------
  // Properties of a run

  /** `report_counter` counts the reports fully processed: a completed run
      counts every report it was given, and a sweep never ends with
      `sys.exit(1)`; the closing message is "no reports" exactly when the
      count is zero. */
  lemma {:induction false} CounterCountsProcessedReports(fs: FsState, cfg: Config, paths: seq<Path>, counter: nat)
    ensures var r := SanitiseFrom(fs, cfg, paths, counter);
      && !r.end.Exit1?
      && (r.end.Completed? ==> r.end.count == counter + |paths|)
      && (r.end.Completed? ==> (r.end.message.NoReportsFound? <==> r.end.count == 0))
    decreases |paths|
  {
    if paths != [] {
      var s := SanitiseFile(fs, cfg, paths[0]);
      if s.done {
        CounterCountsProcessedReports(fs.(files := s.files), cfg, paths[1..], counter + 1);
      }
    }
  }

  /** A crashed run stops at the report it was handling: the count is the
      number of reports before it. */
  lemma {:induction false} CrashStopsAtReport(fs: FsState, cfg: Config, paths: seq<Path>, counter: nat)
    ensures var r := SanitiseFrom(fs, cfg, paths, counter);
      r.end.Crashed? ==> counter <= r.end.count < counter + |paths| && r.end.at == paths[r.end.count - counter]
    decreases |paths|
  {
    if paths != [] {
      var s := SanitiseFile(fs, cfg, paths[0]);
      if s.done {
        var rest := paths[1..];
        CrashStopsAtReport(fs.(files := s.files), cfg, rest, counter + 1);
        var r := SanitiseFrom(fs.(files := s.files), cfg, rest, counter + 1);
        if r.end.Crashed? {
          var k := r.end.count - counter;
          assert rest[k - 1] == paths[k];
        }
      }
    }
  }

  /** The task stops with status 1, touching nothing, exactly when one of the
      archive, reports or sanitised directories or the bridge mapping file is
      missing; otherwise a completed run processed every discovered report and
      reports "no reports" exactly when none was found. */
  lemma MainPreconditions(fs: FsState, cfg: Config, walk: seq<WalkEntry>)
    ensures var r := SanitiseMain(fs, cfg, walk);
      && (r.end.Exit1? <==> cfg.archiveDir !in fs.dirs || cfg.reportsDir !in fs.dirs
                            || cfg.bridgeDbMappingFile !in fs.files || cfg.sanitisedDir !in fs.dirs)
      && (r.end.Exit1? ==> r.fs == fs)
      && (r.end.Completed? ==> r.end.count == |ReportFiles(walk)|
                               && (r.end.message.NoReportsFound? <==> ReportFiles(walk) == []))
  {
    CounterCountsProcessedReports(fs, cfg, ReportFiles(walk), 0);
  }

  /** Files that no report of the sweep names, as raw path, sanitised copy
      or archive, come out of the run as they went in. */
  lemma {:induction false} SweepFrame(fs: FsState, cfg: Config, paths: seq<Path>, counter: nat, q: Path)
    requires forall i :: 0 <= i < |paths| ==>
      q != paths[i] && q != SanitisedTarget(cfg.sanitisedDir, paths[i]) && q != ArchiveTarget(cfg.archiveDir, paths[i])
    ensures var r := SanitiseFrom(fs, cfg, paths, counter);
      (q in r.fs.files <==> q in fs.files) && (q in fs.files ==> r.fs.files[q] == fs.files[q])
    decreases |paths|
  {
    if paths != [] {
      var s := SanitiseFile(fs, cfg, paths[0]);
      SanitiseFileFrame(fs, cfg, paths[0], q);
      if s.done {
        SweepFrame(fs.(files := s.files), cfg, paths[1..], counter + 1, q);
      }
    }
  }

  /** The sweep's reports have pairwise different basenames, all end in
      `.yamloo`, and no sanitised copy lands on one of them. */
  predicate SeparateReports(cfg: Config, paths: seq<Path>) {
    && (forall i :: 0 <= i < |paths| ==> EndsWith(paths[i], ReportSuffix))
    && (forall i, j :: 0 <= i < j < |paths| ==> Basename(paths[i]) != Basename(paths[j]))
    && (forall i, j :: 0 <= i < |paths| && 0 <= j < |paths| ==> SanitisedTarget(cfg.sanitisedDir, paths[i]) != paths[j])
  }

  /** As written, of two readable reports that share a file name the first
      is lost: both steps complete, the first raw file is removed, and the
      one archive of that name holds the second report instead. */
  lemma BasenameClashLosesFirst(fs: FsState, cfg: Config, p1: Path, p2: Path, counter: nat)
    requires p1 != p2 && Basename(p1) == Basename(p2)
    requires p1 in fs.files && p2 in fs.files && fs.denied == {} && fs.unreadable == {}
    requires ReadReport(fs.files[p1]).Some? && ReadReport(fs.files[p2]).Some?
    requires StartsWith(p1, cfg.reportsDir) && StartsWith(p2, cfg.reportsDir)
    requires EndsWith(p1, ReportSuffix) && EndsWith(p2, ReportSuffix)
    requires SanitisedTarget(cfg.sanitisedDir, p1) != p1 && SanitisedTarget(cfg.sanitisedDir, p1) != p2
    ensures var r := SanitiseFrom(fs, cfg, [p1, p2], counter);
      var archive := ArchiveTarget(cfg.archiveDir, p1);
      && r.end == Completed(counter + 2, ReportsArchived(counter + 2))
      && p1 !in r.fs.files
      && archive in r.fs.files && r.fs.files[archive] == TarGz(p2, fs.files[p2])
      && r.fs.files[archive] != TarGz(p1, fs.files[p1])
  {
    var archive := ArchiveTarget(cfg.archiveDir, p1);
    ArchiveTargetName(cfg.archiveDir, p1, p2);
    ArchiveTargetName(cfg.archiveDir, p2, p2);
    SanitisedTargetName(cfg.sanitisedDir, cfg.archiveDir, p1, p1);
    SanitisedTargetName(cfg.sanitisedDir, cfg.archiveDir, p2, p2);
    var s1 := SanitiseFile(fs, cfg, p1);
    var fs1 := fs.(files := s1.files);
    assert s1.done && p2 in fs1.files && fs1.files[p2] == fs.files[p2] by {
      RawRemovedOnlyWhenArchived(fs, cfg, p1);
      SanitiseFileFrame(fs, cfg, p1, p2);
    }
    var s2 := SanitiseFile(fs1, cfg, p2);
    assert s2.done && p1 !in s2.files && archive in s2.files && s2.files[archive] == TarGz(p2, fs.files[p2]) by {
      assert SanitisedTarget(cfg.sanitisedDir, p2) == SanitisedTarget(cfg.sanitisedDir, p1);
      RawRemovedOnlyWhenArchived(fs1, cfg, p2);
      SanitiseFileFrame(fs1, cfg, p2, p1);
    }
    TwoStepsComplete(fs, cfg, p1, p2, counter);
  }

  /** Two completed steps make a completed run of two reports. */
  lemma TwoStepsComplete(fs: FsState, cfg: Config, p1: Path, p2: Path, counter: nat)
    requires SanitiseFile(fs, cfg, p1).done
    requires SanitiseFile(fs.(files := SanitiseFile(fs, cfg, p1).files), cfg, p2).done
    ensures SanitiseFrom(fs, cfg, [p1, p2], counter)
         == Run(fs.(files := SanitiseFile(fs.(files := SanitiseFile(fs, cfg, p1).files), cfg, p2).files),
                Completed(counter + 2, ReportsArchived(counter + 2)))
  {
    var fs1 := fs.(files := SanitiseFile(fs, cfg, p1).files);
    assert [p1, p2][1..] == [p2] && [p2][1..] == [];
    assert SanitiseFrom(fs, cfg, [p1, p2], counter) == SanitiseFrom(fs1, cfg, [p2], counter + 1);
    assert SanitiseFrom(fs1, cfg, [p2], counter + 1)
        == SanitiseFrom(fs1.(files := SanitiseFile(fs1, cfg, p2).files), cfg, [], counter + 2);
  }

  /** An instance: any two reports stored as `/r/a/x.yamloo` and
      `/r/b/x.yamloo` under the reports directory `/r`; the whole task
      completes and `/arc/x.yamloo.gz` holds only the second. */
  lemma SanitiseLosesRawOnBasenameClash(c1: Content, c2: Content, mapping: Content)
    requires ReadReport(c1).Some? && ReadReport(c2).Some?
    ensures var fs := FsState(map["/r/a/x.yamloo" := c1, "/r/b/x.yamloo" := c2, "/map" := mapping],
                              {"/arc", "/r", "/san"}, {}, {});
      var r := SanitiseMain(fs, Config("/arc", "/r", "/map", "/san"),
                            [WalkEntry("/r/a", ["x.yamloo"]), WalkEntry("/r/b", ["x.yamloo"])]);
      && r.end == Completed(2, ReportsArchived(2))
      && "/r/a/x.yamloo" !in r.fs.files
      && "/arc/x.yamloo.gz" in r.fs.files && r.fs.files["/arc/x.yamloo.gz"] == TarGz("/r/b/x.yamloo", c2)
  {
    var fs := FsState(map["/r/a/x.yamloo" := c1, "/r/b/x.yamloo" := c2, "/map" := mapping],
                      {"/arc", "/r", "/san"}, {}, {});
    var cfg := Config("/arc", "/r", "/map", "/san");
    ClashSetup(fs, cfg, [WalkEntry("/r/a", ["x.yamloo"]), WalkEntry("/r/b", ["x.yamloo"])]);
    BasenameClashLosesFirst(fs, cfg, "/r/a/x.yamloo", "/r/b/x.yamloo", 0);
  }

  /** That instance meets the conditions of `BasenameClashLosesFirst`, and
      its task runs straight into the sweep of the two reports. */
  lemma ClashSetup(fs: FsState, cfg: Config, walk: seq<WalkEntry>)
    requires fs.files.Keys == {"/r/a/x.yamloo", "/r/b/x.yamloo", "/map"}
    requires ReadReport(fs.files["/r/a/x.yamloo"]).Some? && ReadReport(fs.files["/r/b/x.yamloo"]).Some?
    requires fs.dirs == {"/arc", "/r", "/san"} && fs.denied == {} && fs.unreadable == {}
    requires cfg == Config("/arc", "/r", "/map", "/san")
    requires walk == [WalkEntry("/r/a", ["x.yamloo"]), WalkEntry("/r/b", ["x.yamloo"])]
    ensures SanitiseMain(fs, cfg, walk) == SanitiseFrom(fs, cfg, ["/r/a/x.yamloo", "/r/b/x.yamloo"], 0)
    ensures Basename("/r/a/x.yamloo") == Basename("/r/b/x.yamloo")
    ensures StartsWith("/r/a/x.yamloo", cfg.reportsDir) && StartsWith("/r/b/x.yamloo", cfg.reportsDir)
    ensures EndsWith("/r/a/x.yamloo", ReportSuffix) && EndsWith("/r/b/x.yamloo", ReportSuffix)
    ensures SanitisedTarget(cfg.sanitisedDir, "/r/a/x.yamloo") != "/r/a/x.yamloo"
    ensures SanitisedTarget(cfg.sanitisedDir, "/r/a/x.yamloo") != "/r/b/x.yamloo"
    ensures ArchiveTarget(cfg.archiveDir, "/r/a/x.yamloo") == "/arc/x.yamloo.gz"
  {
    ClashNames();
    assert "/san/x.yamloo"[1] != "/r/a/x.yamloo"[1];
  }

  /** The names in that instance: both reports are found, share the file
      name `x.yamloo`, and map to the same archive. */
  lemma ClashNames()
    ensures ReportFiles([WalkEntry("/r/a", ["x.yamloo"]), WalkEntry("/r/b", ["x.yamloo"])])
            == ["/r/a/x.yamloo", "/r/b/x.yamloo"]
    ensures Basename("/r/a/x.yamloo") == Basename("/r/b/x.yamloo")
    ensures ArchiveTarget("/arc", "/r/a/x.yamloo") == "/arc/x.yamloo.gz"
    ensures SanitisedTarget("/san", "/r/a/x.yamloo") == "/san/x.yamloo"
    ensures StartsWith("/r/a/x.yamloo", "/r") && StartsWith("/r/b/x.yamloo", "/r")
    ensures EndsWith("/r/a/x.yamloo", ReportSuffix) && EndsWith("/r/b/x.yamloo", ReportSuffix)
  {
    ClashWalk();
    ClashBasenames();
    assert ArchiveTarget("/arc", "/r/a/x.yamloo") == Join("/arc", "x.yamloo") + ArchiveSuffix;
    assert SanitisedTarget("/san", "/r/a/x.yamloo") == Join("/san", "x.yamloo");
  }

  lemma ClashBasenames()
    ensures Basename("/r/a/x.yamloo") == "x.yamloo" && Basename("/r/b/x.yamloo") == "x.yamloo"
  {
    assert forall i :: 0 <= i < |"x.yamloo"| ==> "x.yamloo"[i] != '/';
    BasenameOfJoin("/r/a", "x.yamloo");
    BasenameOfJoin("/r/b", "x.yamloo");
    assert Join("/r/a", "x.yamloo") == "/r/a/x.yamloo" && Join("/r/b", "x.yamloo") == "/r/b/x.yamloo";
  }

  /** The walk of that instance yields the two reports in order. */
  lemma ClashWalk()
    ensures ReportFiles([WalkEntry("/r/a", ["x.yamloo"]), WalkEntry("/r/b", ["x.yamloo"])])
            == ["/r/a/x.yamloo", "/r/b/x.yamloo"]
  {
    var walk := [WalkEntry("/r/a", ["x.yamloo"]), WalkEntry("/r/b", ["x.yamloo"])];
    assert Join("/r/a", "x.yamloo") == "/r/a/x.yamloo" && Join("/r/b", "x.yamloo") == "/r/b/x.yamloo";
    assert EndsWith("x.yamloo", ReportSuffix);
    assert ["x.yamloo"][..0] == [];
    assert ReportsIn("/r/a", ["x.yamloo"]) == ["/r/a/x.yamloo"];
    assert ReportsIn("/r/b", ["x.yamloo"]) == ["/r/b/x.yamloo"];
    assert walk[..1] == [walk[0]] && walk[..1][..0] == [];
  }

  /** No raw report is lost: however the run ends, every report it was
      given is still in place unchanged or is held by its archive. */
  lemma {:induction false} NoRawReportLost(fs: FsState, cfg: Config, paths: seq<Path>, counter: nat, q: Path)
    requires SeparateReports(cfg, paths)
    requires q in paths && q in fs.files
    ensures var r := SanitiseFrom(fs, cfg, paths, counter);
      var archive := ArchiveTarget(cfg.archiveDir, q);
      (q in r.fs.files && r.fs.files[q] == fs.files[q])
      || (archive in r.fs.files && r.fs.files[archive] == TarGz(q, fs.files[q]))
    decreases |paths|
  {
    var p := paths[0];
    var s := SanitiseFile(fs, cfg, p);
    var archive := ArchiveTarget(cfg.archiveDir, q);
    assert SeparateReports(cfg, paths[1..]) by {
      forall i, j | 0 <= i < j < |paths[1..]|
        ensures Basename(paths[1..][i]) != Basename(paths[1..][j])
      {
        assert paths[1..][i] == paths[i + 1] && paths[1..][j] == paths[j + 1];
      }
    }
    if p == q {
      RawRemovedOnlyWhenArchived(fs, cfg, q);
      if s.done {
        forall i | 0 <= i < |paths[1..]|
          ensures archive != paths[1..][i] && archive != SanitisedTarget(cfg.sanitisedDir, paths[1..][i])
            && archive != ArchiveTarget(cfg.archiveDir, paths[1..][i])
        {
          var o := paths[1..][i];
          assert o == paths[i + 1];
          SuffixesDiffer(archive, o);
          SanitisedTargetName(cfg.sanitisedDir, cfg.archiveDir, o, q);
          ArchiveTargetName(cfg.archiveDir, q, o);
        }
        SweepFrame(fs.(files := s.files), cfg, paths[1..], counter + 1, archive);
      }
    } else {
      SuffixesDiffer(ArchiveTarget(cfg.archiveDir, p), q);
      SanitiseFileFrame(fs, cfg, p, q);
      if s.done {
        assert q in paths[1..];
        NoRawReportLost(fs.(files := s.files), cfg, paths[1..], counter + 1, q);
      }
    }
  }

}
