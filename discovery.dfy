/** `list_report_files`, which both scripts define identically: walk a
    directory tree and yield `join(dirpath, filename)` for every file whose
    name ends in `.yamloo`. The walk itself (`os.walk`) is an input: one
    entry per visited directory, in whatever order the walk produced. */
module Discovery {

  import opened Paths

  const ReportSuffix: string := ".yamloo"

  /** The suffix is a plain name fragment: it holds no separator. */
  lemma ReportSuffixIsPlain()
    ensures '/' !in ReportSuffix
  {
    assert forall i :: 0 <= i < |ReportSuffix| ==> ReportSuffix[i] != '/';
  }

  /** One `(dirpath, dirnames, filenames)` triple of `os.walk`; the
      sub-directory names play no part in the filter. */
  datatype WalkEntry = WalkEntry(dirpath: Path, filenames: seq<Path>)

  /** What `os.walk` guarantees of the names it lists: none contains '/'. */
  predicate WellFormedWalk(walk: seq<WalkEntry>) {
    forall i, j :: 0 <= i < |walk| && 0 <= j < |walk[i].filenames| ==> '/' !in walk[i].filenames[j]
  }

  /** The report paths found in one directory, in listing order. */
  function ReportsIn(dir: Path, names: seq<Path>): seq<Path> {
    if names == [] then []
    else
      var last := names[|names| - 1];
      ReportsIn(dir, names[..|names| - 1]) + (if EndsWith(last, ReportSuffix) then [Join(dir, last)] else [])
  }

  /** Everything the generator yields over the whole walk, in walk order. */
  function ReportFiles(walk: seq<WalkEntry>): seq<Path> {
    if walk == [] then []
    else
      var last := walk[|walk| - 1];
      ReportFiles(walk[..|walk| - 1]) + ReportsIn(last.dirpath, last.filenames)
  }

  /** The generator's two nested loops, collecting what it yields. */
  method ListReportFiles(walk: seq<WalkEntry>) returns (paths: seq<Path>)
    ensures paths == ReportFiles(walk)
  {
    paths := [];
    var i := 0;
    while i < |walk|
      invariant 0 <= i <= |walk|
      invariant paths == ReportFiles(walk[..i])
    {
      var dirpath, filenames := walk[i].dirpath, walk[i].filenames;
      var j := 0;
      while j < |filenames|
        invariant 0 <= j <= |filenames|
        invariant paths == ReportFiles(walk[..i]) + ReportsIn(dirpath, filenames[..j])
      {
        if EndsWith(filenames[j], ReportSuffix) {
          paths := paths + [Join(dirpath, filenames[j])];
        }
        assert filenames[..j + 1][..j] == filenames[..j];
        j := j + 1;
      }
      assert filenames[..j] == filenames;
      assert walk[..i + 1][..i] == walk[..i];
      i := i + 1;
    }
    assert walk[..i] == walk;
  }

  /** `p` is what the filter yields for the `j`-th name listed in `dir`. */
  predicate YieldedFor(dir: Path, names: seq<Path>, j: int, p: Path) {
    0 <= j < |names| && EndsWith(names[j], ReportSuffix) && p == Join(dir, names[j])
  }

  /** A path is yielded for a directory exactly when it joins the directory
      with one of its listed names that ends in `.yamloo`. */
  lemma {:induction false} ReportsInMembership(dir: Path, names: seq<Path>, p: Path)
    ensures p in ReportsIn(dir, names) <==> exists j :: YieldedFor(dir, names, j, p)
  {
    if names != [] {
      var init := names[..|names| - 1];
      ReportsInMembership(dir, init, p);
      assert p in ReportsIn(dir, names) <==> p in ReportsIn(dir, init) || YieldedFor(dir, names, |names| - 1, p);
      forall j | YieldedFor(dir, init, j, p)
        ensures YieldedFor(dir, names, j, p)
      {
        assert init[j] == names[j];
      }
      forall j | YieldedFor(dir, names, j, p) && j < |init|
        ensures YieldedFor(dir, init, j, p)
      {
        assert init[j] == names[j];
      }
    }
  }

  /** Every yielded path has a file name ending in `.yamloo`, and so does the
      path itself. */
  lemma {:induction false} ReportFilesHaveSuffix(walk: seq<WalkEntry>)
    requires WellFormedWalk(walk)
    ensures forall p :: p in ReportFiles(walk) ==> EndsWith(Basename(p), ReportSuffix) && EndsWith(p, ReportSuffix)
  {
    if walk != [] {
      var init, last := walk[..|walk| - 1], walk[|walk| - 1];
      assert WellFormedWalk(init) by {
        forall i, j | 0 <= i < |init| && 0 <= j < |init[i].filenames|
          ensures '/' !in init[i].filenames[j]
        {
          assert init[i] == walk[i];
        }
      }
      ReportFilesHaveSuffix(init);
      forall p | p in ReportsIn(last.dirpath, last.filenames)
        ensures EndsWith(Basename(p), ReportSuffix) && EndsWith(p, ReportSuffix)
      {
        ReportsInMembership(last.dirpath, last.filenames, p);
        var j :| YieldedFor(last.dirpath, last.filenames, j, p);
        BasenameOfJoin(last.dirpath, last.filenames[j]);
        JoinKeepsParts(last.dirpath, last.filenames[j]);
        EndsWithTrans(p, last.filenames[j], ReportSuffix);
      }
    }
  }

  /** `p` is what the filter yields for name `j` of walk entry `i`. */
  predicate YieldedAt(walk: seq<WalkEntry>, i: int, j: int, p: Path) {
    0 <= i < |walk| && YieldedFor(walk[i].dirpath, walk[i].filenames, j, p)
  }

  /** Nothing but `.yamloo` files is yielded, and every `.yamloo` file the
      walk lists is. */
  lemma {:induction false} ReportFilesMembership(walk: seq<WalkEntry>, p: Path)
    ensures p in ReportFiles(walk) <==> exists i, j :: YieldedAt(walk, i, j, p)
  {
    if walk != [] {
      var init, last := walk[..|walk| - 1], walk[|walk| - 1];
      ReportFilesMembership(init, p);
      ReportsInMembership(last.dirpath, last.filenames, p);
      forall i, j | YieldedAt(init, i, j, p)
        ensures YieldedAt(walk, i, j, p)
      {
        assert init[i] == walk[i];
      }
      forall i, j | YieldedAt(walk, i, j, p) && i < |init|
        ensures YieldedAt(init, i, j, p)
      {
        assert init[i] == walk[i];
      }
      forall j | YieldedFor(last.dirpath, last.filenames, j, p)
        ensures YieldedAt(walk, |walk| - 1, j, p)
      {
      }
    }
  }

}
