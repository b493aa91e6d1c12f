// The filesystem the PHP handlers and the Python migration script act on:
// a map from path to contents plus the set of directories. Each system call
// the source uses is given once as a pure function on a `World`, and the
// mutable `Disk` offers the same call as a method proved against it.

module FileStore {
  import opened Support

  type Path = string

  datatype World = World(files: map<Path, Bytes>, dirs: set<Path>)
  {
    /** PHP `file_exists` and Python `Path.exists`: a file or a directory. */
    predicate Exists(p: Path)
    {
      p in files || p in dirs
    }
  }

  /** How one whole-file write ends: it succeeds, fails before touching the
      file, or fails after truncating it and leaves `partial` behind. */
  datatype WriteFault = NoFault | FailsUntouched | FailsLeaving(partial: Bytes)

  /** The proper ancestors of `p` that `mkdir($p, 0777, true)` also creates. */
  function Ancestors(p: Path): set<Path>
  {
    set i: int | 0 < i < |p| && p[i] == '/' :: p[..i]
  }

  /** Some proper ancestor of `p` is a regular file, so no directory can be
      made at `p` (the call fails with ENOTDIR). */
  predicate UnderFile(w: World, p: Path)
  {
    exists i :: 0 < i < |p| && p[i] == '/' && p[..i] in w.files
  }

  /** `mkdir($p, 0777, true)`: fails on an injected fault, when `p` already
      exists, or when one of its ancestors is a regular file. */
  function AfterMkdir(w: World, p: Path, fails: bool): (World, bool)
  {
    if fails || w.Exists(p) || UnderFile(w, p) then (w, false)
    else (w.(dirs := w.dirs + {p} + Ancestors(p)), true)
  }

  /** A recursive mkdir succeeds exactly when `p` is free and no ancestor is a
      file; it then adds `p` and all its ancestors as directories and changes
      no file. */
  lemma MkdirRule(w: World, p: Path, fails: bool)
    ensures var (w', ok) := AfterMkdir(w, p, fails);
      && (ok <==> !fails && !w.Exists(p) && forall a :: a in Ancestors(p) ==> a !in w.files)
      && w'.files == w.files
      && (ok ==> w'.dirs == w.dirs + {p} + Ancestors(p) && p in w'.dirs)
      && (!ok ==> w'.dirs == w.dirs)
  {
    if UnderFile(w, p) {
      var i :| 0 < i < |p| && p[i] == '/' && p[..i] in w.files;
      assert p[..i] in Ancestors(p);
    }
  }

  /** PHP `copy` / Python `shutil.copy2`: the destination receives the
      source's bytes. Both open the destination for writing before streaming,
      so a copy that fails part-way (or, for `copy2`, in `copystat`) can
      leave `partial` bytes there, as a failed whole-file write does. */
  function AfterCopy(w: World, src: Path, dst: Path, fault: WriteFault): (World, bool)
  {
    if src !in w.files || dst in w.dirs then (w, false)
    else
      match fault
      case NoFault => (w.(files := w.files[dst := w.files[src]]), true)
      case FailsUntouched => (w, false)
      case FailsLeaving(partial) => (w.(files := w.files[dst := partial]), false)
  }

  /** A copy changes no entry but its destination, and no directory; the
      destination ends with the source's bytes exactly when the copy succeeds. */
  lemma CopyFrame(w: World, src: Path, dst: Path, fault: WriteFault, q: Path)
    ensures var (w', ok) := AfterCopy(w, src, dst, fault);
      && w'.dirs == w.dirs
      && (q != dst ==> (q in w'.files <==> q in w.files) && (q in w.files ==> w'.files[q] == w.files[q]))
      && (ok <==> src in w.files && dst !in w.dirs && fault.NoFault?)
      && (ok ==> dst in w'.files && w'.files[dst] == w.files[src])
  {
  }

  /** PHP `file_put_contents` / Python `open(p, 'w')` followed by a write. */
  function AfterPut(w: World, p: Path, data: Bytes, fault: WriteFault): (World, bool)
  {
    if p in w.dirs then (w, false)
    else
      match fault
      case NoFault => (w.(files := w.files[p := data]), true)
      case FailsUntouched => (w, false)
      case FailsLeaving(partial) => (w.(files := w.files[p := partial]), false)
  }

  /** Python `Path.unlink`. */
  function AfterUnlink(w: World, p: Path, fails: bool): (World, bool)
  {
    if fails || p !in w.files then (w, false)
    else (w.(files := w.files - {p}), true)
  }

  /** Python `Path.replace` (`os.replace`): moves `src` over `dst`. */
  function AfterReplace(w: World, src: Path, dst: Path, fails: bool): (World, bool)
  {
    if fails || src !in w.files || dst in w.dirs then (w, false)
    else (w.(files := (w.files - {src})[dst := w.files[src]]), true)
  }

  /** The only entry a `Put` can change is the one it writes. */
  lemma PutFrame(w: World, p: Path, data: Bytes, fault: WriteFault, q: Path)
    requires q != p
    ensures var w' := AfterPut(w, p, data, fault).0;
      w'.dirs == w.dirs && (q in w'.files <==> q in w.files) &&
      (q in w.files ==> w'.files[q] == w.files[q])
  {
  }

  class Disk {
    var files: map<Path, Bytes>
    var dirs: set<Path>

    function State(): World
      reads this
    {
      World(files, dirs)
    }

    constructor (w: World)
      ensures State() == w
    {
      files := w.files;
      dirs := w.dirs;
    }

    /** PHP `is_dir`. */
    function IsDir(p: Path): bool
      reads this
    {
      p in dirs
    }

    function FileExists(p: Path): bool
      reads this
    {
      State().Exists(p)
    }

    method Mkdir(p: Path, fails: bool) returns (ok: bool)
      modifies this
      ensures (State(), ok) == AfterMkdir(old(State()), p, fails)
    {
      ok := !fails && !(p in files || p in dirs) && !UnderFile(State(), p);
      if ok {
        dirs := dirs + {p} + Ancestors(p);
      }
    }

    method Copy(src: Path, dst: Path, fault: WriteFault) returns (ok: bool)
      modifies this
      ensures (State(), ok) == AfterCopy(old(State()), src, dst, fault)
    {
      if src !in files || dst in dirs {
        return false;
      }
      match fault
      case NoFault =>
        files := files[dst := files[src]];
        ok := true;
      case FailsUntouched =>
        ok := false;
      case FailsLeaving(partial) =>
        files := files[dst := partial];
        ok := false;
    }

    method Put(p: Path, data: Bytes, fault: WriteFault) returns (ok: bool)
      modifies this
      ensures (State(), ok) == AfterPut(old(State()), p, data, fault)
    {
      if p in dirs {
        return false;
      }
      match fault
      case NoFault =>
        files := files[p := data];
        ok := true;
      case FailsUntouched =>
        ok := false;
      case FailsLeaving(partial) =>
        files := files[p := partial];
        ok := false;
    }

    method Unlink(p: Path, fails: bool) returns (ok: bool)
      modifies this
      ensures (State(), ok) == AfterUnlink(old(State()), p, fails)
    {
      ok := !fails && p in files;
      if ok {
        files := files - {p};
      }
    }

    method Replace(src: Path, dst: Path, fails: bool) returns (ok: bool)
      modifies this
      ensures (State(), ok) == AfterReplace(old(State()), src, dst, fails)
    {
      ok := !fails && src in files && dst !in dirs;
      if ok {
        files := (files - {src})[dst := files[src]];
      }
    }
  }
}
