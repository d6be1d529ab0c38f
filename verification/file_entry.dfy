/**
 The File class: a handle on one path, whose methods are single host
 calls on that path. The handle is an immutable value, so no method can
 change the path it was constructed with.

 `Prepend` is modelled as written: it writes `data` followed by whatever
 get() returned, and get()'s false concatenates as the empty string. When
 the file exists but cannot be read, the old content is lost while the
 write reports success; `PrependChecked` is the corrected method.
 */
module FileEntry {
  import opened Wrappers
  import opened Paths
  import opened Tree
  import opened Host

  /** A File object: the path it was constructed with. */
  datatype FileHandle = FileHandle(path: Path)

  /** put(): the file holds exactly `data` afterwards; the byte count, or None for false. */
  function Put(fs: Node, env: Env, h: FileHandle, data: Bytes): (r: Outcome<Option<nat>>)
    ensures r.value.Some? <==> Writable(fs, env, h.path)
    ensures r.value.Some? ==> r.value.value == |data| && IsFile(r.fs, h.path) && OldContent(r.fs, h.path) == data
    ensures r.value.None? ==> r.fs == fs
    ensures forall q :: Disjoint(h.path, q) ==> Lookup(r.fs, q) == Lookup(fs, q)
  {
    WriteFile(fs, env, h.path, data)
  }

  /** get(): the content of a readable regular file, the empty string for a readable directory, None for false. */
  function Get(fs: Node, env: Env, h: FileHandle): (r: Option<Bytes>)
    ensures r.Some? <==> (IsFile(fs, h.path) || IsDirectory(fs, h.path)) && h.path !in env.readFails
    ensures r.Some? && IsFile(fs, h.path) ==> r.value == Lookup(fs, h.path).value.content
    ensures r.Some? && IsDirectory(fs, h.path) ==> r.value == []
  {
    ReadFile(fs, env, h.path)
  }

  /** append(): the file holds its old content followed by `data`; the byte count of `data`. */
  function Append(fs: Node, env: Env, h: FileHandle, data: Bytes): (r: Outcome<Option<nat>>)
    ensures r.value.Some? <==> Writable(fs, env, h.path)
    ensures r.value.Some? ==> r.value.value == |data|
    ensures r.value.Some? ==> IsFile(r.fs, h.path) && OldContent(r.fs, h.path) == OldContent(fs, h.path) + data
    ensures r.value.None? ==> r.fs == fs
    ensures forall q :: Disjoint(h.path, q) ==> Lookup(r.fs, q) == Lookup(fs, q)
  {
    AppendFile(fs, env, h.path, data)
  }

  /** prepend() as written: put(data . get()) when the path exists, put(data) otherwise. */
  function Prepend(fs: Node, env: Env, h: FileHandle, data: Bytes): (r: Outcome<Option<nat>>)
    ensures !Exists(fs, h.path) ==> r == Put(fs, env, h, data)
    ensures r.value.Some? && Get(fs, env, h).Some? ==>
      r.value.value == |data| + |OldContent(fs, h.path)| && OldContent(r.fs, h.path) == data + OldContent(fs, h.path)
    ensures r.value.None? ==> r.fs == fs
    ensures forall q :: Disjoint(h.path, q) ==> Lookup(r.fs, q) == Lookup(fs, q)
  {
    if Exists(fs, h.path) then Put(fs, env, h, data + Get(fs, env, h).GetOr([]))
    else Put(fs, env, h, data)
  }

  /** prepend() as evidently intended: an existing file that cannot be read is left alone and false is returned. */
  function PrependChecked(fs: Node, env: Env, h: FileHandle, data: Bytes): (r: Outcome<Option<nat>>)
    ensures !Exists(fs, h.path) ==> r == Put(fs, env, h, data)
    ensures Exists(fs, h.path) && r.value.Some? ==>
      r.value.value == |data| + |OldContent(fs, h.path)| && OldContent(r.fs, h.path) == data + OldContent(fs, h.path)
    ensures Exists(fs, h.path) && Get(fs, env, h).None? ==> r == Outcome(fs, None)
    ensures r.value.None? ==> r.fs == fs
    ensures forall q :: Disjoint(h.path, q) ==> Lookup(r.fs, q) == Lookup(fs, q)
  {
    if Exists(fs, h.path) then
      match Get(fs, env, h)
      case Some(current) => Put(fs, env, h, data + current)
      case None => Outcome(fs, None)
    else Put(fs, env, h, data)
  }

  /** Where the read succeeds, or nothing exists, the correction changes nothing. */
  lemma PrependCheckedAgrees(fs: Node, env: Env, h: FileHandle, data: Bytes)
    requires !Exists(fs, h.path) || Get(fs, env, h).Some?
    ensures PrependChecked(fs, env, h, data) == Prepend(fs, env, h, data)
  {
  }

  /** As written, prepending to a writable file that cannot be read reports success and keeps only `data`. */
  lemma PrependLosesUnreadableContent(fs: Node, env: Env, h: FileHandle, data: Bytes)
    requires IsFile(fs, h.path) && h.path in env.readFails && h.path !in env.writeFails
    ensures Prepend(fs, env, h, data).value == Some(|data|)
    ensures OldContent(Prepend(fs, env, h, data).fs, h.path) == data
    ensures PrependChecked(fs, env, h, data) == Outcome(fs, None)
  {
  }

  /** delete(): unlink; true exactly when a file or link was there and was removed, never an exception. */
  function Delete(fs: Node, env: Env, h: FileHandle): (r: Outcome<bool>)
    ensures r.value <==> Lookup(fs, h.path).Some? && !Lookup(fs, h.path).value.Dir? && UnlinkAllowed(env, h.path)
    ensures r.value ==> Lookup(r.fs, h.path).None?
    ensures !r.value ==> r.fs == fs
    ensures forall q :: Disjoint(h.path, q) ==> Lookup(r.fs, q) == Lookup(fs, q)
  {
    Unlink(fs, env, h.path)
  }

  /** copy(): the destination, which must not be the file itself, holds the source's bytes afterwards. */
  function Copy(fs: Node, env: Env, h: FileHandle, dest: Path): (r: Outcome<bool>)
    ensures r.value <==> IsFile(fs, h.path) && h.path !in env.readFails && h.path != dest && Writable(fs, env, dest)
    ensures r.value ==> IsFile(r.fs, dest) && OldContent(r.fs, dest) == OldContent(fs, h.path)
    ensures !r.value ==> r.fs == fs
    ensures forall q :: Disjoint(dest, q) ==> Lookup(r.fs, q) == Lookup(fs, q)
  {
    CopyFile(fs, env, h.path, dest)
  }

  // ---------------------------------------------------------------------
  // Round trips
  // ---------------------------------------------------------------------

  /** What put() wrote, get() reads back. */
  lemma PutGetRoundTrip(fs: Node, env: Env, h: FileHandle, data: Bytes)
    requires Put(fs, env, h, data).value.Some?
    requires h.path !in env.readFails
    ensures Get(Put(fs, env, h, data).fs, env, h) == Some(data)
  {
  }

  /** After append() get() reads the old content followed by `data`; after prepend(), `data` followed by the old content. */
  lemma AppendPrependGet(fs: Node, env: Env, h: FileHandle, data: Bytes)
    requires IsFile(fs, h.path) && h.path !in env.readFails && h.path !in env.writeFails
    ensures Get(Append(fs, env, h, data).fs, env, h) == Some(Get(fs, env, h).value + data)
    ensures Get(Prepend(fs, env, h, data).fs, env, h) == Some(data + Get(fs, env, h).value)
  {
  }

  /** exists() holds after a successful put() and no longer after a successful delete(). */
  lemma ExistsAfterPutAndDelete(fs: Node, env: Env, h: FileHandle, data: Bytes)
    ensures Put(fs, env, h, data).value.Some? ==> Exists(Put(fs, env, h, data).fs, h.path)
    ensures Delete(fs, env, h).value ==> !Exists(Delete(fs, env, h).fs, h.path)
  {
  }

  /** A copied file reads back as the source did. */
  lemma CopyGet(fs: Node, env: Env, h: FileHandle, dest: Path)
    requires Copy(fs, env, h, dest).value && dest !in env.readFails
    ensures Get(Copy(fs, env, h, dest).fs, env, FileHandle(dest)) == Get(fs, env, h)
  {
  }
}
