/**
 The recursive directory copy of Directory::copy. The source directory is
 read once, as a listing in iterator order, and each entry is copied into
 `dest/<name>`: a directory by the same walk, anything else by copy(). The
 first failing entry ends the walk with false; entries after it are never
 attempted.

 Before the entries, the walk prepares the destination. As written, it
 calls mkdir(dest, 0777) when nothing exists at `dest` and ignores the
 result, so a failed mkdir still lets an empty source "succeed". The
 corrected variant (`checked`) stops with false unless a directory is at
 `dest` afterwards. `checked` selects the variant throughout the walk.
 */
module CopyWalk {
  import opened Wrappers
  import opened Paths
  import opened Tree
  import opened Host

  /** 0777: the mode the copy asks for when it creates a destination directory. */
  const CopyDirMode: nat := 511

  /** Paths below `dest/x` relate to everything as paths below `dest` do. */
  lemma ChildPaths(dest: Path, x: Name)
    ensures forall q :: Disjoint(dest, q) ==> Disjoint(dest + [x], q)
    ensures forall q :: IsPrefix(q, dest) ==> IsPrefix(q, dest + [x]) && q != dest + [x]
  {
    forall q | Disjoint(dest, q) ensures Disjoint(dest + [x], q) {
      DisjointExtend(dest, [x], q);
    }
    forall q | IsPrefix(q, dest) ensures IsPrefix(q, dest + [x]) && q != dest + [x] {
      assert (dest + [x])[..|q|] == dest[..|q|];
    }
  }

  /** The destination step. None: the walk stops with false. */
  function PrepareDest(fs: Node, env: Env, dest: Path, checked: bool): (r: Option<Node>)
    ensures !checked ==> r.Some?
    ensures checked && r.Some? ==> IsDirectory(r.value, dest)
    ensures r.Some? ==> forall q :: Disjoint(dest, q) ==> Lookup(r.value, q) == Lookup(fs, q)
    ensures r.Some? ==> forall q :: IsPrefix(q, dest) && IsDirectory(fs, q) ==> IsDirectory(r.value, q)
  {
    var made := Mkdir(fs, env, dest, CopyDirMode);
    GraftFacts(fs, dest, Dir([], CreationMode(env, CopyDirMode)));
    if !checked then
      Some(if !Exists(fs, dest) then made.fs else fs)
    else if IsDirectory(fs, dest) then Some(fs)
    else if made.value then Some(made.fs)
    else None
  }

  /**
   Directory::copy of the directory `n`, read at `src`, into `dest`. Nothing
   outside `dest` changes, no directory on the way to `dest` stops being
   one, and the corrected walk reports success only with a directory at `dest`.
   */
  function CopyInto(fs: Node, env: Env, src: Path, n: Node, dest: Path, checked: bool): (r: Outcome<bool>)
    requires n.Dir?
    ensures forall q :: Disjoint(dest, q) ==> Lookup(r.fs, q) == Lookup(fs, q)
    ensures forall q :: IsPrefix(q, dest) && IsDirectory(fs, q) ==> IsDirectory(r.fs, q)
    ensures checked && r.value ==> IsDirectory(r.fs, dest)
    decreases n, 1
  {
    match PrepareDest(fs, env, dest, checked)
    case None => Outcome(fs, false)
    case Some(fs1) =>
      assert IsPrefix(dest, dest);
      CopyEntries(fs1, env, src, n.entries, dest, checked)
  }

  /** Copies the entries of the directory at `src` into the directory at `dest`, stopping at the first failure. */
  function CopyEntries(fs: Node, env: Env, src: Path, es: seq<Entry>, dest: Path, checked: bool): (r: Outcome<bool>)
    ensures forall q :: Disjoint(dest, q) ==> Lookup(r.fs, q) == Lookup(fs, q)
    ensures forall q :: IsPrefix(q, dest) && IsDirectory(fs, q) ==> IsDirectory(r.fs, q)
    decreases es, 0
  {
    if es == [] then Outcome(fs, true)
    else
      var r := CopyEntry(fs, env, src, es[0], dest, checked);
      if r.value then CopyEntries(r.fs, env, src, es[1..], dest, checked) else r
  }

  /** One entry: a directory is copied by the walk, anything else, a link included, by copy(). */
  function CopyEntry(fs: Node, env: Env, src: Path, e: Entry, dest: Path, checked: bool): (r: Outcome<bool>)
    ensures forall q :: Disjoint(dest, q) ==> Lookup(r.fs, q) == Lookup(fs, q)
    ensures forall q :: IsPrefix(q, dest) && IsDirectory(fs, q) ==> IsDirectory(r.fs, q)
    decreases e
  {
    var from, to := src + [e.name], dest + [e.name];
    ChildPaths(dest, e.name);
    match e.node
    case Dir(_, _) => CopyInto(fs, env, from, e.node, to, checked)
    case File(c, _) =>
      GraftFacts(fs, to, File(c, WrittenMode(fs, env, to)));
      CopyContent(fs, env, from, e.node, to)
    case Link(_) => CopyContent(fs, env, from, e.node, to)
  }

  /** The entry point: false with no change unless a directory is at `src`. */
  function CopyDirectory(fs: Node, env: Env, src: Path, dest: Path, checked: bool): (r: Outcome<bool>)
    ensures !IsDirectory(fs, src) ==> r == Outcome(fs, false)
    ensures forall q :: Disjoint(dest, q) ==> Lookup(r.fs, q) == Lookup(fs, q)
    ensures checked && r.value ==> IsDirectory(r.fs, dest)
  {
    if IsDirectory(fs, src) then CopyInto(fs, env, src, Lookup(fs, src).value, dest, checked)
    else Outcome(fs, false)
  }

  // ---------------------------------------------------------------------
  // Sequencing: fail-fast
  // ---------------------------------------------------------------------

  /** Copying a listing is copying its first part, then, only if that succeeded, the rest. */
  lemma {:induction false} CopyEntriesSplit(fs: Node, env: Env, src: Path, a: seq<Entry>, b: seq<Entry>, dest: Path, checked: bool)
    ensures CopyEntries(fs, env, src, a + b, dest, checked)
      == (var r := CopyEntries(fs, env, src, a, dest, checked);
          if r.value then CopyEntries(r.fs, env, src, b, dest, checked) else r)
    decreases a
  {
    if a == [] {
      assert a + b == b;
    } else {
      assert (a + b)[0] == a[0];
      assert (a + b)[1..] == a[1..] + b;
      var r := CopyEntry(fs, env, src, a[0], dest, checked);
      if r.value {
        CopyEntriesSplit(r.fs, env, src, a[1..], b, dest, checked);
      }
    }
  }

  /** Once a prefix of the listing fails, the entries after it are never attempted: they do not affect the outcome. */
  lemma CopyStopsAtFailure(fs: Node, env: Env, src: Path, a: seq<Entry>, b: seq<Entry>, dest: Path, checked: bool)
    requires !CopyEntries(fs, env, src, a, dest, checked).value
    ensures CopyEntries(fs, env, src, a + b, dest, checked) == CopyEntries(fs, env, src, a, dest, checked)
  {
    CopyEntriesSplit(fs, env, src, a, b, dest, checked);
  }

  /** Distinct names under one directory lead to disjoint subtrees. */
  lemma SiblingsDisjoint(dest: Path, y: Name, x: Name, q: Path)
    requires x != y
    ensures Disjoint(dest + [y], dest + [x] + q)
  {
    assert (dest + [y])[|dest|] == y;
    assert (dest + [x] + q)[|dest|] == x;
  }

  /**
   When entry `e` fails after the entries `a` succeeded, what `a` copied
   stays in place: every path below a sibling of `e` in the destination reads
   as it did before `e` was attempted.
   */
  lemma CopyKeepsEarlier(fs: Node, env: Env, src: Path, a: seq<Entry>, e: Entry, b: seq<Entry>, dest: Path, checked: bool,
                         x: Name, q: Path)
    requires CopyEntries(fs, env, src, a, dest, checked).value
    requires !CopyEntry(CopyEntries(fs, env, src, a, dest, checked).fs, env, src, e, dest, checked).value
    requires x != e.name
    ensures Lookup(CopyEntries(fs, env, src, a + [e] + b, dest, checked).fs, dest + [x] + q)
      == Lookup(CopyEntries(fs, env, src, a, dest, checked).fs, dest + [x] + q)
  {
    var r := CopyEntries(fs, env, src, a, dest, checked);
    assert a + [e] + b == a + ([e] + b);
    CopyEntriesSplit(fs, env, src, a, [e] + b, dest, checked);
    assert ([e] + b)[0] == e && ([e] + b)[1..] == b;
    SiblingsDisjoint(dest, e.name, x, q);
    ChildPaths(dest, e.name);
    match e.node
    case Dir(_, _) =>
      var s := CopyInto(r.fs, env, src + [e.name], e.node, dest + [e.name], checked);
      assert Lookup(s.fs, dest + [x] + q) == Lookup(r.fs, dest + [x] + q);
    case File(_, _) =>
    case Link(_) =>
  }

  // ---------------------------------------------------------------------
  // A copy into a fresh destination builds the image of the source.
  // ---------------------------------------------------------------------

  /** The tree a successful copy creates: same names and contents, creation modes. */
  function Image(env: Env, n: Node): Node
    decreases n
  {
    match n
    case File(c, _) => File(c, CreationMode(env, FileCreateMode))
    case Dir(es, _) => Dir(ImageEntries(env, es), CreationMode(env, CopyDirMode))
    case Link(t) => Link(t)
  }

  function ImageEntries(env: Env, es: seq<Entry>): (r: seq<Entry>)
    ensures |r| == |es|
    ensures forall i :: 0 <= i < |es| ==> r[i].name == es[i].name
    decreases es
  {
    if es == [] then [] else [Entry(es[0].name, Image(env, es[0].node))] + ImageEntries(env, es[1..])
  }

  function ImageOf(env: Env, o: Option<Node>): Option<Node>
  {
    match o
    case Some(n) => Some(Image(env, n))
    case None => None
  }

  lemma {:induction false} ImageEntriesAppend(env: Env, a: seq<Entry>, e: Entry)
    ensures ImageEntries(env, a + [e]) == ImageEntries(env, a) + [Entry(e.name, Image(env, e.node))]
    decreases a
  {
    if a == [] {
      assert a + [e] == [e];
    } else {
      assert (a + [e])[1..] == a[1..] + [e];
      ImageEntriesAppend(env, a[1..], e);
    }
  }

  lemma FindImage(env: Env, es: seq<Entry>, x: Name)
    ensures FindChild(ImageEntries(env, es), x) == ImageOf(env, FindChild(es, x))
  {
  }

  /** The image has a node exactly where the source has one: the source's node, imaged. */
  lemma {:induction false} LookupImage(env: Env, n: Node, q: Path)
    ensures Lookup(Image(env, n), q) == ImageOf(env, Lookup(n, q))
    decreases |q|
  {
    if q != [] && n.Dir? {
      FindImage(env, n.entries, q[0]);
      match FindChild(n.entries, q[0])
      case Some(c) => LookupImage(env, c, q[1..]);
      case None =>
    }
  }

  /** No step of the copy of `n` from `src` to `dest` is refused, and `n` holds no link. */
  predicate CopyClear(env: Env, src: Path, n: Node, dest: Path)
    decreases n
  {
    match n
    case File(_, _) => src !in env.readFails && dest !in env.writeFails
    case Link(_) => false
    case Dir(es, _) =>
      && dest !in env.mkdirFails
      && forall i :: 0 <= i < |es| ==> CopyClear(env, src + [es[i].name], es[i].node, dest + [es[i].name])
  }

  /** Writing a new child `x` into a directory written at `dest`. */
  lemma FreshChild(fs: Node, dest: Path, es: seq<Entry>, mode: nat, x: Name, m: Node)
    requires Reachable(fs, dest)
    requires FindChild(es, x).None?
    ensures Lookup(Graft(fs, dest, Dir(es, mode)), dest + [x]).None?
    ensures ParentIsDir(Graft(fs, dest, Dir(es, mode)), dest + [x])
    ensures Graft(Graft(fs, dest, Dir(es, mode)), dest + [x], m) == Graft(fs, dest, Dir(es + [Entry(x, m)], mode))
  {
    var fs1 := Graft(fs, dest, Dir(es, mode));
    LookupGraftSame(fs, dest, Dir(es, mode));
    LookupAppend(fs1, dest, [x]);
    assert Parent(dest + [x]) == dest;
    GraftAppend(fs1, dest, [x], m);
    SetAbsent(es, x, m);
    GraftTwice(fs, dest, Dir(es, mode), Dir(es + [Entry(x, m)], mode));
  }

  /** A destination outside the source keeps each child outside the source's child of the same name. */
  lemma ChildOutside(src: Path, dest: Path, x: Name)
    requires !IsPrefix(src, dest)
    ensures !IsPrefix(src + [x], dest + [x])
  {
    if |src| <= |dest| {
      var k := |src|;
      assert (dest + [x])[..k] == dest[..k];
      assert (src + [x])[..k] == src;
      assert forall i :: 0 <= i < k ==> (dest + [x])[..k + 1][i] == (dest + [x])[..k][i];
    }
  }

  /**
   A clear copy into a fresh destination outside the source creates exactly
   the image of the source there and reports success. A destination inside the
   source would appear in the source's own listing, which this walk does not model.
   */
  lemma {:induction false} CopyFresh(fs: Node, env: Env, src: Path, n: Node, dest: Path, checked: bool)
    requires n.Dir? && WellFormed(n)
    requires Lookup(fs, dest).None? && ParentIsDir(fs, dest)
    requires !IsPrefix(src, dest)
    requires CopyClear(env, src, n, dest)
    ensures CopyInto(fs, env, src, n, dest, checked) == Outcome(Graft(fs, dest, Image(env, n)), true)
    decreases n, 1
  {
    assert dest[..|dest|] == dest;
    var cm := CreationMode(env, CopyDirMode);
    assert PrepareDest(fs, env, dest, checked) == Some(Graft(fs, dest, Dir([], cm)));
    assert ImageEntries(env, []) == [];
    assert n.entries[..0] == [] && n.entries[0..] == n.entries;
    CopyEntriesFresh(fs, env, src, n.entries, 0, dest, cm, checked);
  }

  /**
   The loop over a listing `all` of a clear source, from position `k` on, into
   a fresh destination already holding the images of the first `k` entries.
   */
  lemma {:induction false} CopyEntriesFresh(fs: Node, env: Env, src: Path, all: seq<Entry>, k: nat,
                                             dest: Path, cm: nat, checked: bool)
    requires ParentIsDir(fs, dest)
    requires !IsPrefix(src, dest)
    requires k <= |all| && DistinctNames(all)
    requires forall i :: 0 <= i < |all| ==> WellFormed(all[i].node)
    requires forall i :: 0 <= i < |all| ==> CopyClear(env, src + [all[i].name], all[i].node, dest + [all[i].name])
    ensures CopyEntries(Graft(fs, dest, Dir(ImageEntries(env, all[..k]), cm)), env, src, all[k..], dest, checked)
      == Outcome(Graft(fs, dest, Dir(ImageEntries(env, all), cm)), true)
    decreases all, 1, |all| - k
  {
    if k == |all| {
      assert all[..k] == all && all[k..] == [];
    } else {
      FreshFirst(fs, env, src, all, k, dest, cm, checked);
      CopyEntriesFresh(fs, env, src, all, k + 1, dest, cm, checked);
    }
  }

  /** The entry at position `k` is copied as its image next to those already copied. */
  lemma FreshFirst(fs: Node, env: Env, src: Path, all: seq<Entry>, k: nat, dest: Path, cm: nat, checked: bool)
    requires ParentIsDir(fs, dest)
    requires !IsPrefix(src, dest)
    requires k < |all| && DistinctNames(all)
    requires WellFormed(all[k].node)
    requires CopyClear(env, src + [all[k].name], all[k].node, dest + [all[k].name])
    ensures CopyEntries(Graft(fs, dest, Dir(ImageEntries(env, all[..k]), cm)), env, src, all[k..], dest, checked)
      == CopyEntries(Graft(fs, dest, Dir(ImageEntries(env, all[..k + 1]), cm)), env, src, all[k + 1..], dest, checked)
    decreases all, 0
  {
    var e := all[k];
    var ents := ImageEntries(env, all[..k]);
    forall i | 0 <= i < |ents| ensures ents[i].name != e.name {
      assert ents[i].name == all[i].name;
    }
    FindChildNone(ents, e.name);
    CopyStepFresh(fs, env, src, ents, e, dest, cm, checked);
    assert all[..k + 1] == all[..k] + [e];
    ImageEntriesAppend(env, all[..k], e);
    assert all[k..][0] == e && all[k..][1..] == all[k + 1..];
  }

  /** One entry copied next to the entries already copied into a fresh destination. */
  lemma {:induction false} CopyStepFresh(fs: Node, env: Env, src: Path, ents: seq<Entry>, e: Entry,
                                          dest: Path, cm: nat, checked: bool)
    requires ParentIsDir(fs, dest)
    requires !IsPrefix(src, dest)
    requires FindChild(ents, e.name).None?
    requires WellFormed(e.node)
    requires CopyClear(env, src + [e.name], e.node, dest + [e.name])
    ensures CopyEntry(Graft(fs, dest, Dir(ents, cm)), env, src, e, dest, checked)
      == Outcome(Graft(fs, dest, Dir(ents + [Entry(e.name, Image(env, e.node))], cm)), true)
    decreases e
  {
    var x := e.name;
    var fs1 := Graft(fs, dest, Dir(ents, cm));
    FreshChild(fs, dest, ents, cm, x, Image(env, e.node));
    ChildOutside(src, dest, x);
    if e.node.Dir? {
      CopyFresh(fs1, env, src + [x], e.node, dest + [x], checked);
    }
  }

  /** Copying a directory to a fresh path: success, and below the destination every path holds the image of what the source holds. */
  lemma CopyDirectoryFresh(fs: Node, env: Env, src: Path, dest: Path, checked: bool, q: Path)
    requires WellFormed(fs) && IsDirectory(fs, src)
    requires Lookup(fs, dest).None? && ParentIsDir(fs, dest)
    requires !IsPrefix(src, dest)
    requires CopyClear(env, src, Lookup(fs, src).value, dest)
    ensures CopyDirectory(fs, env, src, dest, checked).value
    ensures Lookup(CopyDirectory(fs, env, src, dest, checked).fs, dest + q) == ImageOf(env, Lookup(fs, src + q))
  {
    var n := Lookup(fs, src).value;
    WellFormedLookup(fs, src);
    CopyFresh(fs, env, src, n, dest, checked);
    var fs1 := Graft(fs, dest, Image(env, n));
    LookupGraftSame(fs, dest, Image(env, n));
    LookupAppend(fs1, dest, q);
    LookupAppend(fs, src, q);
    LookupImage(env, n, q);
  }

  // ---------------------------------------------------------------------
  // The destination step as written, and what the correction changes.
  // ---------------------------------------------------------------------

  /**
   As written, copying an empty directory to a path whose parent is missing
   reports success although nothing was created; the corrected walk reports
   the failure.
   */
  lemma AsWrittenReportsMissingCopy()
    ensures var fs := Dir([Entry("a", Dir([], 493))], 493);
            var env := Env({}, {}, {}, {}, {}, {}, 18);
            && CopyDirectory(fs, env, ["a"], ["x", "y"], false) == Outcome(fs, true)
            && !Exists(fs, ["x", "y"])
            && CopyDirectory(fs, env, ["a"], ["x", "y"], true) == Outcome(fs, false)
  {
    var fs := Dir([Entry("a", Dir([], 493))], 493);
    assert Lookup(fs, ["x"]).None?;
    assert Parent(["x", "y"]) == ["x"];
    assert Lookup(fs, ["x", "y"]).None?;
    assert Lookup(fs, ["a"]) == Some(Dir([], 493));
  }

  /** The correction only withdraws false successes: whenever the corrected walk succeeds, the walk as written does the same. */
  lemma {:induction false} CorrectedRefinesAsWritten(fs: Node, env: Env, src: Path, n: Node, dest: Path)
    requires n.Dir?
    requires CopyInto(fs, env, src, n, dest, true).value
    ensures CopyInto(fs, env, src, n, dest, false) == CopyInto(fs, env, src, n, dest, true)
    decreases n, 1
  {
    var fs1 := PrepareDest(fs, env, dest, true).value;
    assert PrepareDest(fs, env, dest, false) == Some(fs1);
    EntriesRefine(fs1, env, src, n.entries, dest);
  }

  lemma {:induction false} EntriesRefine(fs: Node, env: Env, src: Path, es: seq<Entry>, dest: Path)
    requires CopyEntries(fs, env, src, es, dest, true).value
    ensures CopyEntries(fs, env, src, es, dest, false) == CopyEntries(fs, env, src, es, dest, true)
    decreases es, 0
  {
    if es != [] {
      var e := es[0];
      var r := CopyEntry(fs, env, src, e, dest, true);
      if e.node.Dir? {
        CorrectedRefinesAsWritten(fs, env, src + [e.name], e.node, dest + [e.name]);
      }
      assert CopyEntry(fs, env, src, e, dest, false) == r;
      EntriesRefine(r.fs, env, src, es[1..], dest);
    }
  }
}
