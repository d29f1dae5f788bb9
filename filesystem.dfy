/** The part of the filesystem the bypass touches: the files that exist with
    their contents, which of them the process may write (`os.access(p, W_OK)`)
    or read, and the paths at which creating or writing a file fails (a full
    disk, a directory that refuses new files). */
module FileSystem {
  import opened Wrappers

  type Path = string
  type Bytes = seq<bv8>

  datatype FsState = FsState(
    files: map<Path, Bytes>,
    writable: set<Path>,
    readable: set<Path>,
    faulty: set<Path>)
  {
    /** `open(p, "r")` succeeds. */
    predicate CanRead(p: Path) {
      p in files && p in readable
    }

    /** `shutil.copy2(src, dst)` succeeds. */
    predicate CanCopy(src: Path, dst: Path) {
      CanRead(src) && dst !in faulty
    }

    /** The state after a successful copy: `dst` holds `src`'s bytes. */
    function Copied(src: Path, dst: Path): (s: FsState)
      requires src in files
      ensures s.files.Keys == files.Keys + {dst}
      ensures s.files[dst] == files[src]
      ensures forall p :: p in files && p != dst ==> s.files[p] == files[p]
      ensures s.writable == writable && s.readable == readable && s.faulty == faulty
    {
      this.(files := files[dst := files[src]])
    }

    /** `open(p, "w")` and the dump into it succeed. */
    predicate CanOverwrite(p: Path) {
      p in writable && p !in faulty
    }

    /** The state after a successful overwrite: `p` holds `data`. */
    function Overwritten(p: Path, data: Bytes): (s: FsState)
      ensures s.files.Keys == files.Keys + {p}
      ensures s.files[p] == data
      ensures forall q :: q in files && q != p ==> s.files[q] == files[q]
      ensures s.writable == writable && s.readable == readable && s.faulty == faulty
    {
      this.(files := files[p := data])
    }
  }

  /** The filesystem as mutable state, changed one call at a time. */
  class Disk {
    var files: map<Path, Bytes>
    var writable: set<Path>
    var readable: set<Path>
    var faulty: set<Path>

    function State(): FsState
      reads this
    {
      FsState(files, writable, readable, faulty)
    }

    constructor (s: FsState)
      ensures State() == s
    {
      files, writable, readable, faulty := s.files, s.writable, s.readable, s.faulty;
    }

    /** `os.access(p, os.W_OK)`. */
    method Access(p: Path) returns (ok: bool)
      ensures ok <==> p in State().writable
    {
      ok := p in writable;
    }

    /** Reading the whole of `p`; nothing when it cannot be opened. */
    method ReadAll(p: Path) returns (r: Option<Bytes>)
      ensures r.Some? <==> State().CanRead(p)
      ensures r.Some? ==> r.value == State().files[p]
    {
      if p in files && p in readable {
        r := Some(files[p]);
      } else {
        r := None;
      }
    }

    /** `shutil.copy2(src, dst)`; a failed copy changes nothing. */
    method Copy(src: Path, dst: Path) returns (ok: bool)
      modifies this
      ensures ok <==> old(State()).CanCopy(src, dst)
      ensures State() == if ok then old(State()).Copied(src, dst) else old(State())
    {
      ok := src in files && src in readable && dst !in faulty;
      if ok {
        files := files[dst := files[src]];
      }
    }

    /** `open(p, "w")` followed by writing `data`; a failed write changes nothing. */
    method Overwrite(p: Path, data: Bytes) returns (ok: bool)
      modifies this
      ensures ok <==> old(State()).CanOverwrite(p)
      ensures State() == if ok then old(State()).Overwritten(p, data) else old(State())
    {
      ok := p in writable && p !in faulty;
      if ok {
        files := files[p := data];
      }
    }
  }
}
