/**
 The Directory class: a handle on one path. delete and clean run the
 recursive delete walk; copy runs the recursive copy walk (`Copy` with the
 corrected destination step, `CopyAsWritten` as the source has it); size
 runs the size walk.
 */
module DirectoryEntry {
  import opened Wrappers
  import opened Paths
  import opened Tree
  import opened Host
  import DeleteWalk
  import CopyWalk
  import Size

  /** A Directory object: the path it was constructed with. */
  datatype DirHandle = DirHandle(path: Path)

  /** 0755: create()'s default mode. */
  const DefaultCreateMode: nat := 493

  /**
   delete(preserve): false with no change unless the path is a directory;
   otherwise true, whatever was refused, with nothing outside it touched
   and, when preserving, the directory still in place.
   */
  function Delete(fs: Node, env: Env, h: DirHandle, preserve: bool): (r: Outcome<bool>)
    ensures r.value <==> IsDirectory(fs, h.path)
    ensures !r.value ==> r.fs == fs
    ensures r.value && preserve ==> IsDirectory(r.fs, h.path)
    ensures forall q :: Disjoint(h.path, q) ==> Lookup(r.fs, q) == Lookup(fs, q)
  {
    DeleteWalk.DeleteAt(fs, env, h.path, preserve)
  }

  /** clean() is delete(true): the directory stays. */
  function Clean(fs: Node, env: Env, h: DirHandle): (r: Outcome<bool>)
    ensures r == Delete(fs, env, h, true)
    ensures r.value ==> IsDirectory(r.fs, h.path)
  {
    Delete(fs, env, h, true)
  }

  /** create(mode): mkdir without the recursive flag. */
  function Create(fs: Node, env: Env, h: DirHandle, mode: nat): (r: Outcome<bool>)
    ensures r.value <==> Lookup(fs, h.path).None? && ParentIsDir(fs, h.path) && h.path !in env.mkdirFails
    ensures r.value ==> IsDirectory(r.fs, h.path) && Lookup(r.fs, h.path).value == Dir([], CreationMode(env, mode))
    ensures !r.value ==> r.fs == fs
    ensures forall q :: Disjoint(h.path, q) ==> Lookup(r.fs, q) == Lookup(fs, q)
  {
    Mkdir(fs, env, h.path, mode)
  }

  /** create() with no argument: the default mode 0755, less the umask. */
  function CreateDefault(fs: Node, env: Env, h: DirHandle): (r: Outcome<bool>)
    ensures r.value <==> Lookup(fs, h.path).None? && ParentIsDir(fs, h.path) && h.path !in env.mkdirFails
    ensures r.value ==> Lookup(r.fs, h.path) == Some(Dir([], CreationMode(env, DefaultCreateMode)))
    ensures !r.value ==> r.fs == fs
    ensures forall q :: Disjoint(h.path, q) ==> Lookup(r.fs, q) == Lookup(fs, q)
  {
    Create(fs, env, h, DefaultCreateMode)
  }

  /** copy(dest) with the corrected destination step. */
  function Copy(fs: Node, env: Env, h: DirHandle, dest: Path): (r: Outcome<bool>)
    ensures !IsDirectory(fs, h.path) ==> r == Outcome(fs, false)
    ensures r.value ==> IsDirectory(r.fs, dest)
    ensures forall q :: Disjoint(dest, q) ==> Lookup(r.fs, q) == Lookup(fs, q)
  {
    CopyWalk.CopyDirectory(fs, env, h.path, dest, true)
  }

  /** copy(dest) as written: the destination's mkdir result is ignored. */
  function CopyAsWritten(fs: Node, env: Env, h: DirHandle, dest: Path): (r: Outcome<bool>)
    ensures !IsDirectory(fs, h.path) ==> r == Outcome(fs, false)
    ensures forall q :: Disjoint(dest, q) ==> Lookup(r.fs, q) == Lookup(fs, q)
  {
    CopyWalk.CopyDirectory(fs, env, h.path, dest, false)
  }

  /** size(): the bytes of the regular files below; None where the iterator cannot open the path. */
  method DirSize(fs: Node, h: DirHandle) returns (r: Option<nat>)
    ensures r.None? <==> !IsDirectory(fs, h.path)
    ensures r.Some? ==> r.value == Size.TreeSize(Lookup(fs, h.path).value)
  {
    r := Size.DirectorySize(fs, h.path);
  }

  /** exists() and isDirectory() after create() and after an unobstructed delete(). */
  lemma CreateThenDelete(fs: Node, env: Env, h: DirHandle, mode: nat)
    requires Create(fs, env, h, mode).value
    requires h.path !in env.rmdirFails
    ensures Exists(Create(fs, env, h, mode).fs, h.path) && IsDirectory(Create(fs, env, h, mode).fs, h.path)
    ensures var made := Create(fs, env, h, mode).fs;
            Delete(made, env, h, false).value && !Exists(Delete(made, env, h, false).fs, h.path)
  {
    var made := Create(fs, env, h, mode).fs;
    assert Lookup(made, h.path).value.entries == [];
    assert DeleteWalk.DeleteEntries(env, h.path, []) == [];
  }
}
