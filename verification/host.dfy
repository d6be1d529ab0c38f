/**
 The host's filesystem primitives over the tree: file_exists, is_dir,
 unlink, rmdir, mkdir, file_get_contents, file_put_contents, copy,
 fileperms and chmod. What the tree alone cannot decide (permissions,
 I/O errors) comes from a failure oracle, `Env`: each primitive fails on
 the paths the oracle lists, and otherwise does exactly what the tree
 allows. Symbolic links are never resolved: a link is neither read,
 written nor followed, and unlink removes the link itself.
 */
module Host {
  import opened Wrappers
  import opened Paths
  import opened Tree
  import Octal

  /** The failure oracle and the process umask. */
  datatype Env = Env(
    unlinkFails: set<Path>,
    rmdirFails: set<Path>,
    mkdirFails: set<Path>,
    readFails: set<Path>,
    writeFails: set<Path>,
    chmodFails: set<Path>,
    umask: nat)

  /** The filesystem after a call, and what the call returned. */
  datatype Outcome<T> = Outcome(fs: Node, value: T)

  /** 0666: the mode fopen asks for when a write creates a file. */
  const FileCreateMode: nat := 438

  /** 0100000 and 0040000: the file-type bits fileperms reports above the permission bits. */
  const RegularFileType: nat := 32768
  const DirectoryType: nat := 16384

  /** The permission bits a created node gets: the requested bits minus the umask. */
  function CreationMode(env: Env, requested: nat): (m: nat)
    ensures m < 4096
  {
    (((requested % 4096) as bv12) & !((env.umask % 4096) as bv12)) as nat
  }

  /** file_exists: a file or a directory is there (a link, never followed here, is not). */
  predicate Exists(fs: Node, p: Path)
  {
    Lookup(fs, p).Some? && !Lookup(fs, p).value.Link?
  }

  /** is_dir */
  predicate IsDirectory(fs: Node, p: Path)
  {
    Lookup(fs, p).Some? && Lookup(fs, p).value.Dir?
  }

  /** is_file */
  predicate IsFile(fs: Node, p: Path)
  {
    Lookup(fs, p).Some? && Lookup(fs, p).value.File?
  }

  predicate UnlinkAllowed(env: Env, p: Path)
  {
    p != [] && p !in env.unlinkFails
  }

  predicate RmdirAllowed(env: Env, p: Path)
  {
    p != [] && p !in env.rmdirFails
  }

  /** unlink: removes a file or a link, never a directory; false when there is nothing to remove. */
  function Unlink(fs: Node, env: Env, p: Path): (r: Outcome<bool>)
    ensures r.value <==> Lookup(fs, p).Some? && !Lookup(fs, p).value.Dir? && UnlinkAllowed(env, p)
    ensures r.value ==> Lookup(r.fs, p).None?
    ensures !r.value ==> r.fs == fs
    ensures forall q :: Disjoint(p, q) ==> Lookup(r.fs, q) == Lookup(fs, q)
    ensures forall q :: Lookup(fs, q).None? ==> Lookup(r.fs, q).None?
  {
    if Lookup(fs, p).Some? && !Lookup(fs, p).value.Dir? && UnlinkAllowed(env, p) then
      PruneFacts(fs, p);
      Outcome(Prune(fs, p), true)
    else
      Outcome(fs, false)
  }

  lemma PruneFacts(fs: Node, p: Path)
    requires p != []
    ensures Lookup(Prune(fs, p), p).None?
    ensures forall q :: Disjoint(p, q) ==> Lookup(Prune(fs, p), q) == Lookup(fs, q)
    ensures forall q :: Lookup(fs, q).None? ==> Lookup(Prune(fs, p), q).None?
  {
    LookupPruneSame(fs, p);
    forall q | Disjoint(p, q) ensures Lookup(Prune(fs, p), q) == Lookup(fs, q) {
      LookupPruneDisjoint(fs, p, q);
    }
    forall q | Lookup(fs, q).None? ensures Lookup(Prune(fs, p), q).None? {
      LookupPruneAbsent(fs, p, q);
    }
  }

  /** rmdir: removes an empty directory; false otherwise. */
  function Rmdir(fs: Node, env: Env, p: Path): (r: Outcome<bool>)
    ensures r.value <==> IsDirectory(fs, p) && Lookup(fs, p).value.entries == [] && RmdirAllowed(env, p)
    ensures r.value ==> Lookup(r.fs, p).None?
    ensures !r.value ==> r.fs == fs
    ensures forall q :: Disjoint(p, q) ==> Lookup(r.fs, q) == Lookup(fs, q)
  {
    if IsDirectory(fs, p) && Lookup(fs, p).value.entries == [] && RmdirAllowed(env, p) then
      PruneFacts(fs, p);
      Outcome(Prune(fs, p), true)
    else
      Outcome(fs, false)
  }

  /** mkdir without the recursive flag: creates an empty directory where nothing is and the parent is a directory. */
  function Mkdir(fs: Node, env: Env, p: Path, mode: nat): (r: Outcome<bool>)
    ensures r.value <==> Lookup(fs, p).None? && ParentIsDir(fs, p) && p !in env.mkdirFails
    ensures r.value ==> Lookup(r.fs, p) == Some(Dir([], CreationMode(env, mode)))
    ensures !r.value ==> r.fs == fs
    ensures forall q :: Disjoint(p, q) ==> Lookup(r.fs, q) == Lookup(fs, q)
  {
    if Lookup(fs, p).None? && ParentIsDir(fs, p) && p !in env.mkdirFails then
      LookupGraftSame(fs, p, Dir([], CreationMode(env, mode)));
      GraftFrame(fs, p, Dir([], CreationMode(env, mode)));
      Outcome(Graft(fs, p, Dir([], CreationMode(env, mode))), true)
    else
      Outcome(fs, false)
  }

  /** A write at `p` can succeed: it names a regular file, or nothing inside a directory. */
  predicate Writable(fs: Node, env: Env, p: Path)
  {
    && p !in env.writeFails
    && match Lookup(fs, p)
       case None => ParentIsDir(fs, p)
       case Some(File(_, _)) => true
       case Some(_) => false
  }

  /** A rewritten file keeps its mode; a created one gets the creation mode. */
  function WrittenMode(fs: Node, env: Env, p: Path): nat
  {
    match Lookup(fs, p)
    case Some(File(_, m)) => m
    case _ => CreationMode(env, FileCreateMode)
  }

  /** The content a file has before an append: nothing when it does not exist yet. */
  function OldContent(fs: Node, p: Path): Bytes
  {
    match Lookup(fs, p)
    case Some(File(c, _)) => c
    case _ => []
  }

  /** A writable path is one a graft reaches. */
  lemma WritableReachable(fs: Node, env: Env, p: Path)
    requires Writable(fs, env, p)
    ensures Reachable(fs, p)
  {
    if Lookup(fs, p).Some? {
      LookupReachable(fs, p);
    }
  }

  /** file_put_contents without FILE_APPEND: create or truncate, then write; the byte count, or None for false. */
  function WriteFile(fs: Node, env: Env, p: Path, data: Bytes): (r: Outcome<Option<nat>>)
    ensures r.value.Some? <==> Writable(fs, env, p)
    ensures r.value.Some? ==> r.value.value == |data| && Lookup(r.fs, p) == Some(File(data, WrittenMode(fs, env, p)))
    ensures r.value.None? ==> r.fs == fs
    ensures forall q :: Disjoint(p, q) ==> Lookup(r.fs, q) == Lookup(fs, q)
  {
    GraftFrame(fs, p, File(data, WrittenMode(fs, env, p)));
    if Writable(fs, env, p) then
      WritableReachable(fs, env, p);
      LookupGraftSame(fs, p, File(data, WrittenMode(fs, env, p)));
      Outcome(Graft(fs, p, File(data, WrittenMode(fs, env, p))), Some(|data|))
    else Outcome(fs, None)
  }

  /** file_put_contents with FILE_APPEND: create if missing, then write at the end. */
  function AppendFile(fs: Node, env: Env, p: Path, data: Bytes): (r: Outcome<Option<nat>>)
    ensures r.value.Some? <==> Writable(fs, env, p)
    ensures r.value.Some? ==> r.value.value == |data|
    ensures r.value.Some? ==> Lookup(r.fs, p) == Some(File(OldContent(fs, p) + data, WrittenMode(fs, env, p)))
    ensures r.value.None? ==> r.fs == fs
    ensures forall q :: Disjoint(p, q) ==> Lookup(r.fs, q) == Lookup(fs, q)
  {
    var m := File(OldContent(fs, p) + data, WrittenMode(fs, env, p));
    GraftFrame(fs, p, m);
    if Writable(fs, env, p) then
      WritableReachable(fs, env, p);
      LookupGraftSame(fs, p, m);
      Outcome(Graft(fs, p, m), Some(|data|))
    else Outcome(fs, None)
  }

  /**
   file_get_contents: the content of a readable regular file, None for false.
   A directory opens, and reading it fails with only a notice, so the call
   yields the empty string.
   */
  function ReadFile(fs: Node, env: Env, p: Path): (r: Option<Bytes>)
    ensures r.Some? <==> (IsFile(fs, p) || IsDirectory(fs, p)) && p !in env.readFails
    ensures r.Some? && IsFile(fs, p) ==> r.value == Lookup(fs, p).value.content
    ensures r.Some? && IsDirectory(fs, p) ==> r.value == []
  {
    match Lookup(fs, p)
    case Some(File(c, _)) => if p !in env.readFails then Some(c) else None
    case Some(Dir(_, _)) => if p !in env.readFails then Some([]) else None
    case _ => None
  }

  /**
   copy() of the node `n` read at `src` to `dst`. Only a readable regular
   file can be copied, and never onto itself: copy() refuses a destination
   that is the source's own inode.
   */
  function CopyContent(fs: Node, env: Env, src: Path, n: Node, dst: Path): (r: Outcome<bool>)
    ensures r.value <==> n.File? && src !in env.readFails && src != dst && Writable(fs, env, dst)
    ensures r.value ==> Lookup(r.fs, dst) == Some(File(n.content, WrittenMode(fs, env, dst)))
    ensures !r.value ==> r.fs == fs
    ensures forall q :: Disjoint(dst, q) ==> Lookup(r.fs, q) == Lookup(fs, q)
  {
    if n.File? && src !in env.readFails && src != dst && Writable(fs, env, dst) then
      Outcome(WriteFile(fs, env, dst, n.content).fs, true)
    else Outcome(fs, false)
  }

  /** copy() between two paths: the destination gets the source file's bytes. */
  function CopyFile(fs: Node, env: Env, src: Path, dst: Path): (r: Outcome<bool>)
    ensures r.value <==> IsFile(fs, src) && src !in env.readFails && src != dst && Writable(fs, env, dst)
    ensures r.value ==> Lookup(r.fs, dst) == Some(File(OldContent(fs, src), WrittenMode(fs, env, dst)))
    ensures !r.value ==> r.fs == fs
    ensures forall q :: Disjoint(dst, q) ==> Lookup(r.fs, q) == Lookup(fs, q)
  {
    match Lookup(fs, src)
    case Some(n) => CopyContent(fs, env, src, n, dst)
    case None => Outcome(fs, false)
  }

  /** fileperms: type bits plus permission bits; None (false) for what stat cannot see. */
  function FilePerms(fs: Node, p: Path): Option<nat>
  {
    match Lookup(fs, p)
    case Some(File(_, m)) => Some(RegularFileType + m % 4096)
    case Some(Dir(_, m)) => Some(DirectoryType + m % 4096)
    case _ => None
  }

  /** The permission bits of an existing file or directory. */
  function ModeOf(fs: Node, p: Path): nat
    requires Exists(fs, p)
  {
    Lookup(fs, p).value.mode % 4096
  }

  /** What chmod returns: the setter's success flag, or the getter's digits. */
  datatype ChmodResult = Applied(ok: bool) | Permissions(digits: string)

  /**
   chmod($path, $mode): a truthy mode (non-null, non-zero) is applied, a null
   or zero mode reads the permissions instead.
   */
  function Chmod(fs: Node, env: Env, p: Path, mode: Option<int>): (r: Outcome<ChmodResult>)
    ensures (mode.None? || mode.value == 0) ==> r.fs == fs && r.value.Permissions?
    ensures (mode.None? || mode.value == 0) && Exists(fs, p) ==> r.value.digits == Octal.FourDigits(ModeOf(fs, p))
    ensures (mode.None? || mode.value == 0) && !Exists(fs, p) ==> r.value.digits == "0"
    ensures mode.Some? && mode.value != 0 ==> r.value.Applied?
    ensures mode.Some? && mode.value != 0 ==> (r.value.ok <==> Exists(fs, p) && p !in env.chmodFails)
    ensures mode.Some? && mode.value != 0 && r.value.ok ==> Exists(r.fs, p) && ModeOf(r.fs, p) == mode.value % 4096
    ensures mode.Some? && mode.value != 0 && !r.value.ok ==> r.fs == fs
    ensures forall q :: Disjoint(p, q) ==> Lookup(r.fs, q) == Lookup(fs, q)
  {
    if mode.Some? && mode.value != 0 then ChmodSet(fs, env, p, mode.value)
    else Outcome(fs, Permissions(PermissionDigits(fs, p)))
  }

  /**
   The setter: the C call keeps the permission bits of the mode only
   (Euclidean % 4096 is the two's-complement mask 07777, negative modes too).
   */
  function ChmodSet(fs: Node, env: Env, p: Path, m: int): (r: Outcome<ChmodResult>)
    ensures r.value.Applied?
    ensures r.value.ok <==> Exists(fs, p) && p !in env.chmodFails
    ensures r.value.ok ==> Exists(r.fs, p) && ModeOf(r.fs, p) == m % 4096
    ensures !r.value.ok ==> r.fs == fs
    ensures forall q :: Disjoint(p, q) ==> Lookup(r.fs, q) == Lookup(fs, q)
  {
    match Lookup(fs, p)
    case Some(File(c, _)) =>
      if p !in env.chmodFails then SetNode(fs, p, File(c, m % 4096)) else Outcome(fs, Applied(false))
    case Some(Dir(es, _)) =>
      if p !in env.chmodFails then SetNode(fs, p, Dir(es, m % 4096)) else Outcome(fs, Applied(false))
    case _ => Outcome(fs, Applied(false))
  }

  /**
   The getter: substr(sprintf('%o', fileperms($path)), -4). The type bits
   make the rendering at least five digits long, so the last four are the
   permission bits; a path fileperms cannot see renders false as "0".
   */
  function PermissionDigits(fs: Node, p: Path): (s: string)
    ensures Exists(fs, p) ==> s == Octal.FourDigits(ModeOf(fs, p))
    ensures !Exists(fs, p) ==> s == "0"
  {
    match FilePerms(fs, p)
    case Some(perms) =>
      TypeBitsAboveMode(perms - perms % 4096, ModeOf(fs, p));
      Octal.Last4(Octal.Format(perms))
    case None =>
      ZeroDigits();
      Octal.Last4(Octal.Format(0))
  }

  lemma TypeBitsAboveMode(t: nat, m: nat)
    requires t == RegularFileType || t == DirectoryType
    requires m < 4096
    ensures Octal.Last4(Octal.Format(t + m)) == Octal.FourDigits(m)
  {
    var n := t + m;
    assert n == 4096 * (t / 4096) + m;
    assert n % 4096 == m;
    Octal.Last4OfFormat(n);
  }

  lemma ZeroDigits()
    ensures Octal.Last4(Octal.Format(0)) == "0"
  {
  }

  /** Replaces the node at an existing path (the setter's state change). */
  function SetNode(fs: Node, p: Path, m: Node): (r: Outcome<ChmodResult>)
    requires Lookup(fs, p).Some?
    ensures r.value == Applied(true) && Lookup(r.fs, p) == Some(m)
    ensures forall q :: Disjoint(p, q) ==> Lookup(r.fs, q) == Lookup(fs, q)
  {
    LookupReachable(fs, p);
    LookupGraftSame(fs, p, m);
    GraftFrame(fs, p, m);
    Outcome(Graft(fs, p, m), Applied(true))
  }

  lemma GraftFrame(fs: Node, p: Path, m: Node)
    ensures forall q :: Disjoint(p, q) ==> Lookup(Graft(fs, p, m), q) == Lookup(fs, q)
  {
    forall q | Disjoint(p, q) ensures Lookup(Graft(fs, p, m), q) == Lookup(fs, q) {
      LookupGraftDisjoint(fs, p, m, q);
    }
  }

  /** A write at `p` changes nothing outside `p` and keeps every directory above `p` a directory. */
  lemma GraftFacts(fs: Node, p: Path, m: Node)
    ensures forall q :: Disjoint(p, q) ==> Lookup(Graft(fs, p, m), q) == Lookup(fs, q)
    ensures forall q :: IsPrefix(q, p) && q != p && IsDirectory(fs, q) ==> IsDirectory(Graft(fs, p, m), q)
  {
    GraftFrame(fs, p, m);
    forall q | IsPrefix(q, p) && q != p && IsDirectory(fs, q)
      ensures IsDirectory(Graft(fs, p, m), q)
    {
      GraftKeepsAncestor(fs, p, m, q);
    }
  }

  lemma GraftKeepsAncestor(fs: Node, p: Path, m: Node, q: Path)
    requires IsPrefix(q, p) && q != p && IsDirectory(fs, q)
    ensures IsDirectory(Graft(fs, p, m), q)
  {
    var s := p[|q|..];
    assert p == q + s;
    var d := Lookup(fs, q).value;
    GraftAppend(fs, q, s, m);
    LookupReachable(fs, q);
    LookupGraftSame(fs, q, Graft(d, s, m));
  }

  /** The getter reads back what the setter wrote, and its digits parse back to the applied bits. */
  lemma ChmodRoundTrip(fs: Node, env: Env, p: Path, m: int)
    requires m != 0
    requires Chmod(fs, env, p, Some(m)).value.ok
    ensures Chmod(Chmod(fs, env, p, Some(m)).fs, env, p, None).value == Permissions(Octal.FourDigits(m % 4096))
    ensures Octal.Parse(Octal.FourDigits(m % 4096)) == m % 4096
  {
    Octal.ParseFourDigits(m % 4096);
  }

  /** A zero mode is the getter, not a setter. */
  lemma ChmodZeroIsGetter(fs: Node, env: Env, p: Path)
    ensures Chmod(fs, env, p, Some(0)) == Chmod(fs, env, p, None)
  {
  }
}
