/** The import task (`tasks/import.py`): for every `.yamloo` file under the
    sanitised directory, check the header's `probe_cc`, point the header's
    `report_file` at `<public_dir>/<cc>/<basename>`, insert the header, then
    every non-blank entry tagged with the header's identifier, and only then
    move the file to its public path. Any exception abandons that one file:
    what was inserted stays, the file stays where it was, and the loop goes
    on with the next file. */
module ImportTask {

  import opened Wrappers
  import opened Paths
  import opened Documents
  import opened Os
  import opened Discovery
  import opened Mongo

  // ---------------------------------------------------------------------
  // The country code check: `re.match("[a-zA-Z]{2}", cc)`

  predicate IsAsciiLetter(c: char) {
    'a' <= c <= 'z' || 'A' <= c <= 'Z'
  }

  /** `re.match("[a-zA-Z]{n}", s)` succeeds: the pattern is anchored at the
      start of `s` only. */
  predicate MatchLetters(s: string, n: nat) {
    n == 0 || (|s| > 0 && IsAsciiLetter(s[0]) && MatchLetters(s[1..], n - 1))
  }

  predicate ValidCc(cc: string) {
    MatchLetters(cc, 2)
  }

  /** The pattern matches exactly the strings whose first `n` characters are
      ASCII letters, whatever follows them. */
  lemma {:induction false} MatchLettersExact(s: string, n: nat)
    ensures MatchLetters(s, n) <==> n <= |s| && forall i :: 0 <= i < n ==> IsAsciiLetter(s[i])
  {
    if n > 0 && |s| > 0 {
      MatchLettersExact(s[1..], n - 1);
      if n <= |s| && forall i :: 0 <= i < n ==> IsAsciiLetter(s[i]) {
        forall i | 0 <= i < n - 1
          ensures IsAsciiLetter(s[1..][i])
        {
          assert s[1..][i] == s[i + 1];
        }
      }
    }
  }

  /** A country code passes when its first two characters are ASCII letters;
      nothing is required of the rest, so `"ITALY"` or `"it-42"` pass too. */
  lemma ValidCcExact(cc: string, tail: string)
    ensures ValidCc(cc) <==> |cc| >= 2 && IsAsciiLetter(cc[0]) && IsAsciiLetter(cc[1])
    ensures ValidCc(cc) ==> ValidCc(cc + tail)
  {
    MatchLettersExact(cc, 2);
    MatchLettersExact(cc + tail, 2);
  }

  /** The country code of a header: `probe_cc` must be present, a string and
      valid; otherwise the lookup, the regex call or the assertion raises. */
  function CcOf(header: Mapping): Option<string> {
    if "probe_cc" in header && header["probe_cc"].Str? && ValidCc(header["probe_cc"].s) then
      Some(header["probe_cc"].s)
    else None
  }

  // ---------------------------------------------------------------------
  // One report

  /** `join(public_dir, cc, basename(report_file))` */
  function PublicPath(publicDir: Path, cc: string, reportFile: Path): Path {
    Join(Join(publicDir, cc), Basename(reportFile))
  }

  /** The public path keeps the report's file name, and its string starts
      with `<public_dir>/<cc>`, which starts with the public directory. */
  lemma PublicPathShape(publicDir: Path, cc: string, reportFile: Path)
    requires ValidCc(cc)
    ensures Basename(PublicPath(publicDir, cc, reportFile)) == Basename(reportFile)
    ensures StartsWith(PublicPath(publicDir, cc, reportFile), Join(publicDir, cc))
    ensures StartsWith(Join(publicDir, cc), publicDir)
  {
    ValidCcExact(cc, []);
    var d, b := Join(publicDir, cc), Basename(reportFile);
    BasenameIsLastComponent(reportFile);
    BasenameOfJoin(d, b);
    JoinKeepsParts(publicDir, cc);
    if |b| > 0 {
      assert b[0] in b;
    }
    JoinKeepsParts(d, b);
  }

  /** `entry['report_id'] = self.rid` */
  function Tagged(entry: Mapping, rid: nat): Mapping {
    entry["report_id" := Ref(rid)]
  }

  /** The store after the entry loop, and whether every entry went in
      (`false` where an insert raised and ended the loop). */
  datatype Inserted = Inserted(db: Db, complete: bool)

  /** The entry loop: insert the entries one by one, each tagged with the
      header's identifier, until one insert raises. */
  function InsertEntries(db: Db, entries: seq<Mapping>, rid: nat): Inserted
    decreases |entries|
  {
    if entries == [] then Inserted(db, true)
    else
      var a := TryInsert(db, Measurements, Tagged(entries[0], rid));
      if a.id.None? then Inserted(a.db, false)
      else InsertEntries(a.db, entries[1..], rid)
  }

  /** The entry loop appends a prefix of the tagged entries, in order and
      numbered consecutively, and the whole list exactly when it completes;
      the fault schedule only shrinks. */
  lemma {:induction false} InsertEntriesJournal(db: Db, entries: seq<Mapping>, rid: nat)
    ensures var r := InsertEntries(db, entries, rid);
      var n, j := |db.journal|, r.db.journal;
      && n <= |j| <= n + |entries|
      && j[..n] == db.journal
      && (forall k :: n <= k < |j| ==> j[k] == Record(Measurements, k, Tagged(entries[k - n], rid)))
      && (r.complete <==> |j| == n + |entries|)
      && |r.db.faults| <= |db.faults|
    decreases |entries|
  {
    if entries != [] {
      var a := TryInsert(db, Measurements, Tagged(entries[0], rid));
      if a.id.Some? {
        var n := |db.journal|;
        var r := InsertEntries(a.db, entries[1..], rid);
        assert InsertEntries(db, entries, rid) == r;
        InsertEntriesJournal(a.db, entries[1..], rid);
        assert a.db.journal == db.journal + [Record(Measurements, n, Tagged(entries[0], rid))];
        var j := r.db.journal;
        assert j[..n + 1] == a.db.journal;
        assert j[..n] == db.journal by {
          assert j[..n] == j[..n + 1][..n];
        }
        assert j[n] == Record(Measurements, n, Tagged(entries[0], rid)) by {
          assert j[n] == j[..n + 1][n];
        }
        assert |r.db.faults| <= |a.db.faults| <= |db.faults|;
        forall k | n < k < |j|
          ensures j[k] == Record(Measurements, k, Tagged(entries[k - n], rid))
        {
          assert entries[1..][k - (n + 1)] == entries[k - n];
        }
      }
    }
  }

  /** What became of the report file. */
  datatype Outcome = Relocated(publicFile: Path) | Skipped

  datatype Imported = Imported(fs: FsState, db: Db, outcome: Outcome)

  /** A report the task accepts: it exists and may be read, its first
      document is a mapping, and that header carries a valid country code. */
  predicate Accepted(fs: FsState, reportFile: Path) {
    reportFile in fs.files && reportFile !in fs.unreadable && ReadReport(fs.files[reportFile]).Some?
    && CcOf(ReadReport(fs.files[reportFile]).value.header).Some?
  }

  /** `ReportInserter(report_file)` as a whole. Every exception is caught:
      the file is then left where it is, and inserts already made stay. */
  function ImportOne(fs: FsState, db: Db, publicDir: Path, reportFile: Path): Imported {
    if !Accepted(fs, reportFile) then Imported(fs, db, Skipped)
    else
      var rd := ReadReport(fs.files[reportFile]).value;
      var publicFile := PublicPath(publicDir, CcOf(rd.header).value, reportFile);
      var a := TryInsert(db, Reports, rd.header["report_file" := Str(publicFile)]);
      if a.id.None? then Imported(fs, a.db, Skipped)
      else
        var ins := InsertEntries(a.db, NonBlank(rd.rest), a.id.value);
        if !ins.complete || reportFile in fs.denied || publicFile in fs.denied then Imported(fs, ins.db, Skipped)
        else Imported(fs.(files := Move(fs.files, reportFile, publicFile)), ins.db, Relocated(publicFile))
  }

  /** A rejected report (missing, unreadable, not a document stream,
      headerless, or with a missing or invalid `probe_cc`) changes nothing at
      all; an accepted one always makes an insert attempt, and its header is
      stored unless that insert raises. */
  lemma RejectedReportUntouched(fs: FsState, db: Db, publicDir: Path, reportFile: Path)
    ensures var r := ImportOne(fs, db, publicDir, reportFile);
      && (!Accepted(fs, reportFile) ==> r == Imported(fs, db, Skipped))
      && (r.db == db <==> !Accepted(fs, reportFile))
      && (Accepted(fs, reportFile) ==>
            (|r.db.journal| > |db.journal| <==> !(|db.faults| > 0 && db.faults[0])))
  {
    if Accepted(fs, reportFile) {
      var rd := ReadReport(fs.files[reportFile]).value;
      var publicFile := PublicPath(publicDir, CcOf(rd.header).value, reportFile);
      var a := TryInsert(db, Reports, rd.header["report_file" := Str(publicFile)]);
      assert |a.db.journal| > |db.journal| || |a.db.faults| < |db.faults|;
      if a.id.Some? {
        InsertEntriesJournal(a.db, NonBlank(rd.rest), a.id.value);
      }
    }
  }

  /** What an accepted report puts in the store, after what was there: first
      the header, with `report_file` set to the public path and every other
      field kept; then the report's non-blank entries in stream order, each
      tagged with the header's identifier; all of them exactly when the file
      was moved. Nothing is taken back. */
  lemma ImportJournal(fs: FsState, db: Db, publicDir: Path, reportFile: Path)
    requires Accepted(fs, reportFile)
    ensures var r := ImportOne(fs, db, publicDir, reportFile);
      var rd := ReadReport(fs.files[reportFile]).value;
      var publicFile := PublicPath(publicDir, CcOf(rd.header).value, reportFile);
      var entries := NonBlank(rd.rest);
      var n, j := |db.journal|, r.db.journal;
      && n <= |j| <= n + 1 + |entries|
      && j[..n] == db.journal
      && (|j| > n ==> j[n] == Record(Reports, n, rd.header["report_file" := Str(publicFile)]))
      && (forall k :: n < k < |j| ==> j[k] == Record(Measurements, k, Tagged(entries[k - n - 1], n)))
      && (r.outcome.Relocated? ==> |j| == n + 1 + |entries|)
  {
    var rd := ReadReport(fs.files[reportFile]).value;
    var publicFile := PublicPath(publicDir, CcOf(rd.header).value, reportFile);
    var a := TryInsert(db, Reports, rd.header["report_file" := Str(publicFile)]);
    if a.id.Some? {
      var n := |db.journal|;
      assert a.db.journal == db.journal + [Record(Reports, n, rd.header["report_file" := Str(publicFile)])];
      InsertEntriesJournal(a.db, NonBlank(rd.rest), n);
      var j := InsertEntries(a.db, NonBlank(rd.rest), n).db.journal;
      assert j[..n + 1] == a.db.journal;
      assert j[..n] == a.db.journal[..n] && j[n] == a.db.journal[n];
    }
  }

  /** The import keeps the store's numbering, so the header's identifier is
      one no earlier record carries. */
  lemma ImportKeepsNumbering(fs: FsState, db: Db, publicDir: Path, reportFile: Path)
    requires Numbered(db.journal)
    ensures var j := ImportOne(fs, db, publicDir, reportFile).db.journal;
      && Numbered(j)
      && (|j| > |db.journal| ==> forall k :: 0 <= k < |db.journal| ==> db.journal[k].id != j[|db.journal|].id)
  {
    if Accepted(fs, reportFile) {
      ImportJournal(fs, db, publicDir, reportFile);
      var j := ImportOne(fs, db, publicDir, reportFile).db.journal;
      var n := |db.journal|;
      forall k | 0 <= k < |j|
        ensures j[k].id == k
      {
        if k < n {
          assert j[k] == j[..n][k];
        }
      }
    }
  }

  /** The file moves only after the header and every entry went in and the
      move itself is allowed, and then to its public path, content intact;
      otherwise it stays where it was and no file changes. */
  lemma RelocatedOnlyAfterAllInserts(fs: FsState, db: Db, publicDir: Path, reportFile: Path)
    ensures var r := ImportOne(fs, db, publicDir, reportFile);
      && (r.outcome.Relocated? <==>
            && Accepted(fs, reportFile)
            && var rd := ReadReport(fs.files[reportFile]).value;
               var publicFile := PublicPath(publicDir, CcOf(rd.header).value, reportFile);
               && |r.db.journal| == |db.journal| + 1 + |NonBlank(rd.rest)|
               && reportFile !in fs.denied && publicFile !in fs.denied)
      && (r.outcome.Relocated? ==>
            var publicFile := r.outcome.publicFile;
            && publicFile == PublicPath(publicDir, CcOf(ReadReport(fs.files[reportFile]).value.header).value, reportFile)
            && r.fs == fs.(files := Move(fs.files, reportFile, publicFile)))
      && (r.outcome.Skipped? ==> r.fs == fs)
  {
    if Accepted(fs, reportFile) {
      var rd := ReadReport(fs.files[reportFile]).value;
      var publicFile := PublicPath(publicDir, CcOf(rd.header).value, reportFile);
      var a := TryInsert(db, Reports, rd.header["report_file" := Str(publicFile)]);
      if a.id.Some? {
        InsertEntriesJournal(a.db, NonBlank(rd.rest), a.id.value);
      }
    }
  }

  /** One report's import touches no file but the report and a public path
      it may be moved to. */
  lemma ImportOneFrame(fs: FsState, db: Db, publicDir: Path, reportFile: Path, x: Path)
    requires x != reportFile
    requires forall cc :: ValidCc(cc) ==> x != PublicPath(publicDir, cc, reportFile)
    ensures var r := ImportOne(fs, db, publicDir, reportFile);
      (x in r.fs.files <==> x in fs.files) && (x in fs.files ==> r.fs.files[x] == fs.files[x])
  {
    RelocatedOnlyAfterAllInserts(fs, db, publicDir, reportFile);
  }

  /** Every public path of a report shares its basename, so a file with
      another basename is none of them. */
  lemma OtherBasenameNotPublic(publicDir: Path, reportFile: Path, x: Path)
    requires Basename(x) != Basename(reportFile)
    ensures forall cc :: ValidCc(cc) ==> x != PublicPath(publicDir, cc, reportFile)
  {
    forall cc | ValidCc(cc)
      ensures x != PublicPath(publicDir, cc, reportFile)
    {
      PublicPathShape(publicDir, cc, reportFile);
    }
  }

  /** As written, a country code only has to start with two letters, so
      `probe_cc: "IT/../../tmp"` passes the check. The public path then
      climbs out of `/data/public/IT`, and `os.renames` resolves it to
      `/data/tmp/x.yamloo`. */
  lemma CcClimbsOutOfPublicDir()
    ensures ValidCc("IT/../../tmp") && '/' in "IT/../../tmp"
    ensures PublicPath("/data/public", "IT/../../tmp", "/data/sanitized/x.yamloo")
            == "/data/public/IT/../../tmp/x.yamloo"
  {
    ValidCcExact("IT/../../tmp", []);
    assert "IT/../../tmp"[2] == '/';
    assert forall i :: 0 <= i < |"x.yamloo"| ==> "x.yamloo"[i] != '/';
    BasenameOfJoin("/data/sanitized", "x.yamloo");
    assert Join("/data/sanitized", "x.yamloo") == "/data/sanitized/x.yamloo";
    assert Join("/data/public", "IT/../../tmp") == "/data/public/IT/../../tmp";
  }

  /** The check evidently intended, `[a-zA-Z]{2}` matching the whole code:
      exactly two ASCII letters. */
  predicate AnchoredCc(cc: string) {
    |cc| == 2 && ValidCc(cc)
  }

  /** Under the intended check the public path is exactly
      `<public_dir>/<cc>/<basename>`: three parts, the country code neither
      holding a separator nor being `.` or `..`, and the file name free of
      separators, so the report stays in its country's directory. */
  lemma AnchoredCcStaysInPlace(publicDir: Path, cc: string, reportFile: Path)
    requires AnchoredCc(cc)
    requires publicDir != [] && publicDir[|publicDir| - 1] != '/'
    ensures PublicPath(publicDir, cc, reportFile) == publicDir + "/" + cc + "/" + Basename(reportFile)
    ensures '/' !in cc && cc != "." && cc != ".."
    ensures '/' !in Basename(reportFile)
  {
    AnchoredCcLetters(cc);
    BasenameIsLastComponent(reportFile);
    var b := Basename(reportFile);
    if |b| > 0 {
      assert b[0] in b;
    }
    var d := Join(publicDir, cc);
    assert d == publicDir + "/" + cc;
    assert d[|d| - 1] == cc[1];
    assert Join(d, b) == d + "/" + b;
  }

  /** An anchored country code holds neither a separator nor a dot. */
  lemma AnchoredCcLetters(cc: string)
    requires AnchoredCc(cc)
    ensures '/' !in cc && '.' !in cc && cc != "." && cc != ".."
  {
    ValidCcExact(cc, []);
    assert cc == [cc[0], cc[1]];
  }

  // ---------------------------------------------------------------------
  // The inserter object

  class ReportInserter {
    /** Whether `self.fh` is still open. */
    var fhOpen: bool
    /** The documents `self._report` has not yielded yet. */
    var pending: seq<Document>
    var header: Mapping
    var rid: Option<nat>

    /** `__init__`: the whole import of one report. */
    constructor (fs: FileSystem, db: Store, publicDir: Path, reportFile: Path)
      modifies fs, db
      ensures var r := ImportOne(old(fs.State()), old(db.State()), publicDir, reportFile);
        fs.State() == r.fs && db.State() == r.db
    {
      fhOpen, pending, header, rid := false, [], map[], None;
      new;
      ghost var fs0 := fs.State();
      var raw := fs.Open(reportFile);
      if raw.None? {
        return;
      }
      fhOpen := true;
      var rd := ReadReport(raw.value);
      if rd.None? {
        return;
      }
      header, pending := rd.value.header, rd.value.rest;
      var cc := CcOf(header);
      if cc.None? {
        return;
      }
      assert Accepted(fs0, reportFile);
      var publicFile := PublicPath(publicDir, cc.value, reportFile);
      header := header["report_file" := Str(publicFile)];
      rid := db.Insert(Reports, header);
      if rid.None? {
        return;
      }
      var complete := InsertMeasurements(db);
      if !complete {
        return;
      }
      var moved := fs.Renames(reportFile, publicFile);
    }

    /** The `for entry in self` loop of `__init__`: insert each entry the
        iterator yields, tagged with the header's identifier, until the
        stream ends or an insert raises. */
    method InsertMeasurements(db: Store) returns (complete: bool)
      requires rid.Some?
      modifies this, db
      ensures rid == old(rid) && header == old(header)
      ensures Inserted(db.State(), complete) == InsertEntries(old(db.State()), NonBlank(old(pending)), rid.value)
    {
      while true
        invariant rid == old(rid) && header == old(header)
        invariant InsertEntries(db.State(), NonBlank(pending), rid.value)
               == InsertEntries(old(db.State()), NonBlank(old(pending)), rid.value)
        decreases |pending|
      {
        var entry := Next();
        if entry.None? {
          return true;
        }
        var id := db.Insert(Measurements, Tagged(entry.value, rid.value));
        if id.None? {
          return false;
        }
      }
    }

    /** `next`: the next non-blank entry of the stream, skipping blank ones;
        on exhaustion the file is closed and `None` stands for
        `StopIteration`. */
    method Next() returns (entry: Option<Mapping>)
      modifies this
      ensures header == old(header) && rid == old(rid)
      ensures entry.None? ==> NonBlank(old(pending)) == [] && pending == [] && !fhOpen
      ensures entry.Some? ==> NonBlank(old(pending)) == [entry.value] + NonBlank(pending)
                              && |pending| < |old(pending)| && fhOpen == old(fhOpen)
    {
      while true
        invariant header == old(header) && rid == old(rid) && fhOpen == old(fhOpen)
        invariant NonBlank(pending) == NonBlank(old(pending))
        invariant |pending| <= |old(pending)|
        decreases |pending|
      {
        if pending == [] {
          fhOpen := false;
          return None;
        }
        var d := pending[0];
        pending := pending[1..];
        if !IsBlank(d) {
          return Some(d.fields);
        }
      }
    }
  }

  /** `next` never yields a blank entry, and the entries it yields one after
      another are exactly the non-blank documents, in stream order. */
  lemma NextYieldsNonBlank(pending: seq<Document>, rest: seq<Document>, e: Mapping)
    requires NonBlank(pending) == [e] + NonBlank(rest)
    ensures e != map[] && Doc(e) in pending
  {
    NonBlankSpec(pending);
    assert e in NonBlank(pending);
  }

  // ---------------------------------------------------------------------
  // The batch

  datatype World = World(fs: FsState, db: Db)

  /** The top-level loop: a `ReportInserter` per discovered report, in
      discovery order, each starting from where the previous one left off. */
  function ImportAll(w: World, publicDir: Path, paths: seq<Path>): World
    decreases |paths|
  {
    if paths == [] then w
    else
      var r := ImportOne(w.fs, w.db, publicDir, paths[0]);
      ImportAll(World(r.fs, r.db), publicDir, paths[1..])
  }

  method ImportReports(fs: FileSystem, db: Store, publicDir: Path, walk: seq<WalkEntry>)
    modifies fs, db
    ensures World(fs.State(), db.State()) == ImportAll(World(old(fs.State()), old(db.State())), publicDir, ReportFiles(walk))
  {
    var reportFiles := ListReportFiles(walk);
    ghost var start := World(fs.State(), db.State());
    for i := 0 to |reportFiles|
      invariant ImportAll(World(fs.State(), db.State()), publicDir, reportFiles[i..]) == ImportAll(start, publicDir, reportFiles)
    {
      assert reportFiles[i..][0] == reportFiles[i] && reportFiles[i..][1..] == reportFiles[i + 1..];
      var inserter := new ReportInserter(fs, db, publicDir, reportFiles[i]);
    }
  }

  /** The batch never takes a record back: whatever happened to any file,
      the store's journal only grows; file permissions are left alone. */
  lemma {:induction false} ImportAllAppendOnly(w: World, publicDir: Path, paths: seq<Path>)
    ensures var r := ImportAll(w, publicDir, paths);
      && |w.db.journal| <= |r.db.journal| && r.db.journal[..|w.db.journal|] == w.db.journal
      && r.fs.denied == w.fs.denied && r.fs.unreadable == w.fs.unreadable
    decreases |paths|
  {
    if paths != [] {
      var r := ImportOne(w.fs, w.db, publicDir, paths[0]);
      if Accepted(w.fs, paths[0]) {
        ImportJournal(w.fs, w.db, publicDir, paths[0]);
      }
      RelocatedOnlyAfterAllInserts(w.fs, w.db, publicDir, paths[0]);
      ImportAllAppendOnly(World(r.fs, r.db), publicDir, paths[1..]);
      var j := ImportAll(World(r.fs, r.db), publicDir, paths[1..]).db.journal;
      assert j[..|w.db.journal|] == j[..|r.db.journal|][..|w.db.journal|];
    }
  }

  /** Files that are neither a report of the batch nor a public path one of
      them could be moved to come out of it as they went in. */
  lemma {:induction false} ImportAllFrame(w: World, publicDir: Path, paths: seq<Path>, x: Path)
    requires forall i :: 0 <= i < |paths| ==>
      x != paths[i] && forall cc :: ValidCc(cc) ==> x != PublicPath(publicDir, cc, paths[i])
    ensures var r := ImportAll(w, publicDir, paths);
      (x in r.fs.files <==> x in w.fs.files) && (x in w.fs.files ==> r.fs.files[x] == w.fs.files[x])
    decreases |paths|
  {
    if paths != [] {
      var r := ImportOne(w.fs, w.db, publicDir, paths[0]);
      ImportOneFrame(w.fs, w.db, publicDir, paths[0], x);
      forall i | 0 <= i < |paths[1..]|
        ensures x != paths[1..][i] && forall cc :: ValidCc(cc) ==> x != PublicPath(publicDir, cc, paths[1..][i])
      {
        assert paths[1..][i] == paths[i + 1];
      }
      ImportAllFrame(World(r.fs, r.db), publicDir, paths[1..], x);
    }
  }

  /** A file sharing neither the name nor the basename of any report of the
      batch is none of their public paths. */
  lemma OtherBasenamesNotPublic(publicDir: Path, paths: seq<Path>, x: Path)
    requires forall i :: 0 <= i < |paths| ==> x != paths[i] && Basename(x) != Basename(paths[i])
    ensures forall i :: 0 <= i < |paths| ==>
      x != paths[i] && forall cc :: ValidCc(cc) ==> x != PublicPath(publicDir, cc, paths[i])
  {
    forall i | 0 <= i < |paths|
      ensures forall cc :: ValidCc(cc) ==> x != PublicPath(publicDir, cc, paths[i])
    {
      OtherBasenameNotPublic(publicDir, paths[i], x);
    }
  }

  /** The report is at a public path, under a valid country code, with the
      given content. */
  ghost predicate Published(files: map<Path, Content>, publicDir: Path, reportFile: Path, content: Content) {
    exists cc :: ValidCc(cc) && PublicPath(publicDir, cc, reportFile) in files
                 && files[PublicPath(publicDir, cc, reportFile)] == content
  }

  /** No report is lost by the import: when the batch's reports have
      pairwise different basenames, each of them ends up either unchanged at
      its original path or, with its content intact, at its public path. */
  lemma {:induction false} NoImportedReportLost(w: World, publicDir: Path, paths: seq<Path>, q: Path)
    requires forall i, j :: 0 <= i < j < |paths| ==> Basename(paths[i]) != Basename(paths[j])
    requires q in paths && q in w.fs.files
    ensures var r := ImportAll(w, publicDir, paths);
      (q in r.fs.files && r.fs.files[q] == w.fs.files[q]) || Published(r.fs.files, publicDir, q, w.fs.files[q])
    decreases |paths|
  {
    var p, rest := paths[0], paths[1..];
    var r := ImportOne(w.fs, w.db, publicDir, p);
    var w' := World(r.fs, r.db);
    assert forall i, j :: 0 <= i < j < |rest| ==> Basename(rest[i]) != Basename(rest[j]) by {
      forall i, j | 0 <= i < j < |rest|
        ensures Basename(rest[i]) != Basename(rest[j])
      {
        assert rest[i] == paths[i + 1] && rest[j] == paths[j + 1];
      }
    }
    if p == q {
      RelocatedOnlyAfterAllInserts(w.fs, w.db, publicDir, q);
      forall i | 0 <= i < |rest|
        ensures Basename(q) != Basename(rest[i])
      {
        assert rest[i] == paths[i + 1];
      }
      if r.outcome.Relocated? {
        var cc := CcOf(ReadReport(w.fs.files[q]).value.header).value;
        var pub := PublicPath(publicDir, cc, q);
        PublicPathShape(publicDir, cc, q);
        OtherBasenamesNotPublic(publicDir, rest, pub);
        ImportAllFrame(w', publicDir, rest, pub);
        assert ValidCc(cc);
      } else {
        OtherBasenamesNotPublic(publicDir, rest, q);
        ImportAllFrame(w', publicDir, rest, q);
      }
    } else {
      var k :| 0 <= k < |paths| && paths[k] == q;
      assert Basename(p) != Basename(q) by {
        assert paths[0] == p;
      }
      OtherBasenameNotPublic(publicDir, p, q);
      ImportOneFrame(w.fs, w.db, publicDir, p, q);
      assert rest[k - 1] == q;
      NoImportedReportLost(w', publicDir, rest, q);
    }
  }


  /** With no insert failing, the entry loop goes through and leaves no
      failure pending. */
  lemma {:induction false} InsertEntriesWithoutFaults(db: Db, entries: seq<Mapping>, rid: nat)
    requires db.faults == []
    ensures InsertEntries(db, entries, rid).complete && InsertEntries(db, entries, rid).db.faults == []
    decreases |entries|
  {
    if entries != [] {
      InsertEntriesWithoutFaults(TryInsert(db, Measurements, Tagged(entries[0], rid)).db, entries[1..], rid);
    }
  }

  /** With no insert failing and every path writable, an accepted report is
      moved to its public path. */
  lemma ImportWithoutFaults(fs: FsState, db: Db, publicDir: Path, reportFile: Path)
    requires Accepted(fs, reportFile) && db.faults == [] && fs.denied == {}
    ensures var r := ImportOne(fs, db, publicDir, reportFile);
      var publicFile := PublicPath(publicDir, CcOf(ReadReport(fs.files[reportFile]).value.header).value, reportFile);
      && r.outcome == Relocated(publicFile)
      && r.fs == fs.(files := Move(fs.files, reportFile, publicFile))
      && r.db.faults == []
  {
    var rd := ReadReport(fs.files[reportFile]).value;
    var publicFile := PublicPath(publicDir, CcOf(rd.header).value, reportFile);
    var a := TryInsert(db, Reports, rd.header["report_file" := Str(publicFile)]);
    InsertEntriesWithoutFaults(a.db, NonBlank(rd.rest), a.id.value);
  }

  /** As written, of two reports with the same country code and file name
      the first is lost: both are moved to the same public path, and the
      second replaces the first there. */
  lemma PublicClashLosesFirst(w: World, publicDir: Path, p1: Path, p2: Path)
    requires p1 != p2 && Basename(p1) == Basename(p2)
    requires Accepted(w.fs, p1) && Accepted(w.fs, p2)
    requires CcOf(ReadReport(w.fs.files[p1]).value.header) == CcOf(ReadReport(w.fs.files[p2]).value.header)
    requires w.db.faults == [] && w.fs.denied == {}
    requires var pub := PublicPath(publicDir, CcOf(ReadReport(w.fs.files[p1]).value.header).value, p1);
      pub != p1 && pub != p2
    ensures var r := ImportAll(w, publicDir, [p1, p2]);
      var pub := PublicPath(publicDir, CcOf(ReadReport(w.fs.files[p1]).value.header).value, p1);
      && p1 !in r.fs.files && p2 !in r.fs.files
      && pub in r.fs.files && r.fs.files[pub] == w.fs.files[p2]
      && (forall x :: x in r.fs.files <==> x in w.fs.files.Keys - {p1, p2} + {pub})
  {
    var pub := PublicPath(publicDir, CcOf(ReadReport(w.fs.files[p1]).value.header).value, p1);
    assert PublicPath(publicDir, CcOf(ReadReport(w.fs.files[p2]).value.header).value, p2) == pub;
    var r1 := ImportOne(w.fs, w.db, publicDir, p1);
    ImportWithoutFaults(w.fs, w.db, publicDir, p1);
    assert r1.fs.files[p2] == w.fs.files[p2];
    var w1 := World(r1.fs, r1.db);
    var r2 := ImportOne(w1.fs, w1.db, publicDir, p2);
    assert Accepted(w1.fs, p2);
    ImportWithoutFaults(w1.fs, w1.db, publicDir, p2);
    assert [p1, p2][1..] == [p2] && [p2][1..] == [];
    assert ImportAll(w, publicDir, [p1, p2]) == ImportAll(w1, publicDir, [p2]);
    assert ImportAll(w1, publicDir, [p2]) == World(r2.fs, r2.db);
  }

  /** An instance: two `IT` reports stored as `/s/a/x.yamloo` and
      `/s/b/x.yamloo` end as the single file `/p/IT/x.yamloo`, holding the
      second; the first is published nowhere. */
  lemma ImportLosesReportOnPublicClash(c1: Content, c2: Content)
    requires c1 != c2
    requires ReadReport(c1).Some? && CcOf(ReadReport(c1).value.header) == Some("IT")
    requires ReadReport(c2).Some? && CcOf(ReadReport(c2).value.header) == Some("IT")
    ensures var w := World(FsState(map["/s/a/x.yamloo" := c1, "/s/b/x.yamloo" := c2], {}, {}, {}), Db([], []));
      var r := ImportAll(w, "/p", ["/s/a/x.yamloo", "/s/b/x.yamloo"]);
      && r.fs.files == map["/p/IT/x.yamloo" := c2]
      && !Published(r.fs.files, "/p", "/s/a/x.yamloo", c1)
  {
    var w := World(FsState(map["/s/a/x.yamloo" := c1, "/s/b/x.yamloo" := c2], {}, {}, {}), Db([], []));
    ImportClashNames();
    PublicClashLosesFirst(w, "/p", "/s/a/x.yamloo", "/s/b/x.yamloo");
    var files := ImportAll(w, "/p", ["/s/a/x.yamloo", "/s/b/x.yamloo"]).fs.files;
    assert files.Keys == {"/p/IT/x.yamloo"};
    assert files == map["/p/IT/x.yamloo" := c2];
  }

  /** The names in that instance: both reports share the file name
      `x.yamloo` and so the public path `/p/IT/x.yamloo`. */
  lemma ImportClashNames()
    ensures Basename("/s/a/x.yamloo") == Basename("/s/b/x.yamloo") == "x.yamloo"
    ensures PublicPath("/p", "IT", "/s/a/x.yamloo") == "/p/IT/x.yamloo"
  {
    ImportClashBasenames();
    assert Join("/p", "IT") == "/p/IT";
    assert Join("/p/IT", "x.yamloo") == "/p/IT/x.yamloo";
  }

  lemma ImportClashBasenames()
    ensures Basename("/s/a/x.yamloo") == "x.yamloo"
    ensures Basename("/s/b/x.yamloo") == "x.yamloo"
  {
    assert forall i :: 0 <= i < |"x.yamloo"| ==> "x.yamloo"[i] != '/';
    BasenameOfJoin("/s/a", "x.yamloo");
    BasenameOfJoin("/s/b", "x.yamloo");
    assert Join("/s/a", "x.yamloo") == "/s/a/x.yamloo" && Join("/s/b", "x.yamloo") == "/s/b/x.yamloo";
  }

}
