/** The filesystem both scripts work on: a map from path to file content,
    the set of existing directories, the set of paths the process may not
    create, replace or delete (writes there raise `IOError`/`OSError`), and
    the set of existing files it may not read (opening them raises). */
module Os {

  import opened Wrappers
  import opened Paths
  import opened Documents

  datatype FsState = FsState(files: map<Path, Content>, dirs: set<Path>, denied: set<Path>, unreadable: set<Path>)

  /** `os.renames(src, dst)` on the file map: the content moves, any file
      already at `dst` is replaced. */
  function Move(files: map<Path, Content>, src: Path, dst: Path): (r: map<Path, Content>)
    requires src in files
    ensures dst in r && r[dst] == files[src]
    ensures src != dst ==> src !in r
    ensures forall q :: q != src && q != dst ==> (q in r <==> q in files)
    ensures forall q :: q != src && q != dst && q in files ==> r[q] == files[q]
  {
    (files - {src})[dst := files[src]]
  }

  class FileSystem {
    var files: map<Path, Content>
    var dirs: set<Path>
    var denied: set<Path>
    var unreadable: set<Path>

    function State(): FsState
      reads this
    {
      FsState(files, dirs, denied, unreadable)
    }

    constructor (s: FsState)
      ensures State() == s
    {
      files, dirs, denied, unreadable := s.files, s.dirs, s.denied, s.unreadable;
    }

    /** `os.path.isfile` */
    method IsFile(p: Path) returns (b: bool)
      ensures b <==> p in files
    {
      b := p in files;
    }

    /** `os.path.isdir` */
    method IsDir(p: Path) returns (b: bool)
      ensures b <==> p in dirs
    {
      b := p in dirs;
    }

    /** `open(p)` for reading; `None` when it raises, because `p` does not
        exist or may not be read. */
    method Open(p: Path) returns (c: Option<Content>)
      ensures c.Some? <==> p in files && p !in unreadable
      ensures c.Some? ==> c.value == files[p]
    {
      c := if p in files && p !in unreadable then Some(files[p]) else None;
    }

    /** Create or truncate `p` and fill it with `c`; an existing file is
        overwritten. */
    method Write(p: Path, c: Content) returns (ok: bool)
      modifies this
      ensures ok <==> p !in old(denied)
      ensures State() == if ok then old(State()).(files := old(files)[p := c]) else old(State())
    {
      ok := p !in denied;
      if ok {
        files := files[p := c];
      }
    }

    /** `os.remove(p)` */
    method Remove(p: Path) returns (ok: bool)
      modifies this
      ensures ok <==> p in old(files) && p !in old(denied)
      ensures State() == if ok then old(State()).(files := old(files) - {p}) else old(State())
    {
      ok := p in files && p !in denied;
      if ok {
        files := files - {p};
      }
    }

    /** `os.renames(src, dst)`; missing parent directories of `dst` are
        created by the real call and are not tracked here. */
    method Renames(src: Path, dst: Path) returns (ok: bool)
      modifies this
      ensures ok <==> src in old(files) && src !in old(denied) && dst !in old(denied)
      ensures State() == if ok then old(State()).(files := Move(old(files), src, dst)) else old(State())
    {
      ok := src in files && src !in denied && dst !in denied;
      if ok {
        files := Move(files, src, dst);
      }
    }
  }

}
