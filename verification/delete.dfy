/**
 The recursive directory delete shared by Filesystem::deleteDirectory and
 Directory::delete: every child that is a directory and not a link is
 deleted recursively (never preserving it), every other child, a link to
 a directory included, is unlinked as a leaf; afterwards the directory
 itself is removed unless the root is preserved. Failures are ignored:
 the walk is best-effort and the call returns true once the root was a
 directory.

 The walk touches only the subtree below the root, and the failure oracle
 is keyed by path, so it is stated on that subtree: `DeleteTree` returns
 what is left of it.
 */
module DeleteWalk {
  import opened Wrappers
  import opened Paths
  import opened Tree
  import opened Host

  /** What is left of the directory `n` found at `p`: None when `n` itself was removed. */
  function DeleteTree(env: Env, p: Path, n: Node, preserve: bool): (r: Option<Node>)
    requires n.Dir?
    ensures r.Some? ==> r.value.Dir? && r.value.mode == n.mode
    ensures preserve ==> r.Some?
    decreases n
  {
    var kept := DeleteEntries(env, p, n.entries);
    if !preserve && kept == [] && RmdirAllowed(env, p) then None else Some(Dir(kept, n.mode))
  }

  /** The survivors among the entries of the directory at `p`, in listing order. */
  function DeleteEntries(env: Env, p: Path, es: seq<Entry>): seq<Entry>
    decreases es
  {
    if es == [] then [] else DeleteEntry(env, p, es[0]) + DeleteEntries(env, p, es[1..])
  }

  /** The survivor of one entry of the directory at `p`: nothing once it was removed. */
  function DeleteEntry(env: Env, p: Path, e: Entry): seq<Entry>
    decreases e
  {
    var q := p + [e.name];
    match e.node
    case Dir(_, _) =>
      (match DeleteTree(env, q, e.node, false)
       case None => []
       case Some(d) => [Entry(e.name, d)])
    case _ => if UnlinkAllowed(env, q) then [] else [e]
  }

  // ---------------------------------------------------------------------
  // Reference: which removals the host refuses.
  // ---------------------------------------------------------------------

  /** The host refuses to remove `node` at `path` (rmdir for a directory, unlink otherwise). */
  predicate Refused(env: Env, path: Path, node: Node)
  {
    if node.Dir? then !RmdirAllowed(env, path) else !UnlinkAllowed(env, path)
  }

  /** The node at `q` below `n` (itself at `p`) is one whose removal the host refuses. */
  ghost predicate RefusedAt(env: Env, p: Path, n: Node, q: Path)
  {
    Lookup(n, q).Some? && Refused(env, p + q, Lookup(n, q).value)
  }

  /** Some removal in the subtree `n` at `p`, `n` included, is refused. */
  ghost predicate Blocked(env: Env, p: Path, n: Node)
  {
    exists q :: RefusedAt(env, p, n, q)
  }

  /** Some removal strictly below `n` at `p` is refused. */
  ghost predicate BlockedBelow(env: Env, p: Path, n: Node)
  {
    exists q :: q != [] && RefusedAt(env, p, n, q)
  }

  /** A refused removal strictly below the root lies in the subtree of one of its children. */
  lemma BlockedBelowInChild(env: Env, p: Path, n: Node, q: Path) returns (j: nat)
    requires n.Dir?
    requires q != [] && RefusedAt(env, p, n, q)
    ensures j < |n.entries| && Blocked(env, p + [n.entries[j].name], n.entries[j].node)
  {
    var es := n.entries;
    var x, r := q[0], q[1..];
    j := FindChildIndex(es, x);
    assert q == [x] + r;
    LookupAppend(n, [x], r);
    assert p + q == (p + [x]) + r;
    assert RefusedAt(env, p + [x], es[j].node, r);
  }

  /** A refused removal in a child's subtree is one below the root. */
  lemma ChildBlocksBelow(env: Env, p: Path, n: Node, j: nat)
    requires n.Dir? && DistinctNames(n.entries)
    requires j < |n.entries| && Blocked(env, p + [n.entries[j].name], n.entries[j].node)
    ensures BlockedBelow(env, p, n)
  {
    var es := n.entries;
    var x := es[j].name;
    var r :| RefusedAt(env, p + [x], es[j].node, r);
    FindChildAt(es, j);
    LookupAppend(n, [x], r);
    assert p + ([x] + r) == (p + [x]) + r;
    assert RefusedAt(env, p, n, [x] + r);
  }

  /** A subtree is blocked below its root exactly when one of the root's children is blocked. */
  lemma BlockedSplit(env: Env, p: Path, n: Node)
    requires n.Dir? && WellFormed(n)
    ensures BlockedBelow(env, p, n) <==>
      exists j :: 0 <= j < |n.entries| && Blocked(env, p + [n.entries[j].name], n.entries[j].node)
    ensures Blocked(env, p, n) <==> Refused(env, p, n) || BlockedBelow(env, p, n)
  {
    var es := n.entries;
    if BlockedBelow(env, p, n) {
      var q :| q != [] && RefusedAt(env, p, n, q);
      var j := BlockedBelowInChild(env, p, n, q);
    }
    if exists j :: 0 <= j < |es| && Blocked(env, p + [es[j].name], es[j].node) {
      var j :| 0 <= j < |es| && Blocked(env, p + [es[j].name], es[j].node);
      ChildBlocksBelow(env, p, n, j);
    }
    RefusedSplit(env, p, n);
  }

  /** A subtree is blocked when its root's removal or one below it is refused. */
  lemma RefusedSplit(env: Env, p: Path, n: Node)
    ensures Blocked(env, p, n) <==> Refused(env, p, n) || BlockedBelow(env, p, n)
  {
    assert p + [] == p;
    if Blocked(env, p, n) {
      var q :| RefusedAt(env, p, n, q);
      if q != [] {
        assert BlockedBelow(env, p, n);
      }
    }
    if Refused(env, p, n) {
      assert RefusedAt(env, p, n, []);
    }
  }

  lemma EntriesEmpty(env: Env, p: Path, es: seq<Entry>)
    ensures DeleteEntries(env, p, es) == [] <==> forall j :: 0 <= j < |es| ==> DeleteEntry(env, p, es[j]) == []
  {
    if es != [] {
      EntriesEmpty(env, p, es[1..]);
      assert forall j :: 1 <= j < |es| ==> es[j] == es[1..][j - 1];
    }
  }

  /** One entry is removed exactly when nothing in its subtree is refused. */
  lemma {:induction false} EntryFate(env: Env, p: Path, e: Entry)
    requires WellFormed(e.node)
    ensures DeleteEntry(env, p, e) == [] <==> !Blocked(env, p + [e.name], e.node)
    decreases e, 0
  {
    var q := p + [e.name];
    if e.node.Dir? {
      TreeFate(env, q, e.node);
    } else {
      if Blocked(env, q, e.node) {
        var r :| RefusedAt(env, q, e.node, r);
        LookupLeaf(e.node, r);
        assert q + r == q;
      }
      if !UnlinkAllowed(env, q) {
        assert q + [] == q;
        assert RefusedAt(env, q, e.node, []);
      }
    }
  }

  /**
   Best-effort removal, exactly: a directory walked without preserving it is
   gone afterwards iff no removal in its subtree is refused, and its children
   are all gone iff no removal strictly below it is refused.
   */
  lemma {:induction false} TreeFate(env: Env, p: Path, n: Node)
    requires n.Dir? && WellFormed(n)
    ensures DeleteEntries(env, p, n.entries) == [] <==> !BlockedBelow(env, p, n)
    ensures DeleteTree(env, p, n, false).None? <==> !Blocked(env, p, n)
    decreases n, 1
  {
    var es := n.entries;
    forall j | 0 <= j < |es|
      ensures DeleteEntry(env, p, es[j]) == [] <==> !Blocked(env, p + [es[j].name], es[j].node)
    {
      assert es[j] in es;
      EntryFate(env, p, es[j]);
    }
    EntriesEmpty(env, p, es);
    BlockedSplit(env, p, n);
  }

  /** Attempt-all: a child survives the walk exactly when its own subtree holds a refused removal, whatever its siblings do. */
  lemma ChildFate(env: Env, p: Path, n: Node, j: int)
    requires n.Dir? && WellFormed(n)
    requires 0 <= j < |n.entries|
    ensures HasName(DeleteEntries(env, p, n.entries), n.entries[j].name)
      <==> Blocked(env, p + [n.entries[j].name], n.entries[j].node)
  {
    var es := n.entries;
    assert es[j] in es;
    EntryFate(env, p, es[j]);
    SurvivorNames(env, p, es, es[j].name);
    if exists i :: 0 <= i < |es| && es[i].name == es[j].name && DeleteEntry(env, p, es[i]) != [] {
      var i :| 0 <= i < |es| && es[i].name == es[j].name && DeleteEntry(env, p, es[i]) != [];
      assert i == j;
    }
  }

  /** The survivors carry the names of the entries that were not removed. */
  lemma SurvivorNames(env: Env, p: Path, es: seq<Entry>, x: Name)
    ensures HasName(DeleteEntries(env, p, es), x)
      <==> exists i :: 0 <= i < |es| && es[i].name == x && DeleteEntry(env, p, es[i]) != []
  {
    if es != [] {
      SurvivorNames(env, p, es[1..], x);
      var head, rest := DeleteEntry(env, p, es[0]), DeleteEntries(env, p, es[1..]);
      assert forall k :: 0 <= k < |head| ==> head[k].name == es[0].name;
      if HasName(head + rest, x) {
        var k :| 0 <= k < |head + rest| && (head + rest)[k].name == x;
        if k < |head| {
          assert es[0].name == x;
        } else {
          assert rest[k - |head|].name == x;
          var i :| 0 <= i < |es[1..]| && es[1..][i].name == x && DeleteEntry(env, p, es[1..][i]) != [];
          assert es[i + 1] == es[1..][i];
        }
      }
      if exists i :: 0 <= i < |es| && es[i].name == x && DeleteEntry(env, p, es[i]) != [] {
        var i :| 0 <= i < |es| && es[i].name == x && DeleteEntry(env, p, es[i]) != [];
        if i == 0 {
          assert (head + rest)[0] == head[0];
        } else {
          assert es[1..][i - 1] == es[i];
          var k :| 0 <= k < |rest| && rest[k].name == x;
          assert (head + rest)[|head| + k] == rest[k];
        }
      }
    }
  }

  /** What is left of one entry after the walk: nothing, or the node kept under the same name. */
  function Survivor(env: Env, p: Path, e: Entry): Option<Node>
  {
    var kept := DeleteEntry(env, p, e);
    if kept == [] then None else Some(kept[0].node)
  }

  /** Looking a name up among the survivors finds what is left of the entry of that name. */
  lemma {:induction false} FindSurvivor(env: Env, p: Path, es: seq<Entry>, x: Name)
    requires DistinctNames(es)
    ensures FindChild(DeleteEntries(env, p, es), x)
      == match FindChild(es, x) case None => None case Some(c) => Survivor(env, p, Entry(x, c))
    decreases es
  {
    if es != [] {
      var head, rest := DeleteEntry(env, p, es[0]), DeleteEntries(env, p, es[1..]);
      assert DistinctNames(es[1..]) by {
        forall i, j | 0 <= i < j < |es[1..]| ensures es[1..][i].name != es[1..][j].name {
          assert es[1..][i] == es[i + 1] && es[1..][j] == es[j + 1];
        }
      }
      FindSurvivor(env, p, es[1..], x);
      assert forall k :: 0 <= k < |head| ==> head[k].name == es[0].name;
      if es[0].name == x {
        assert es[0] == Entry(x, es[0].node);
        if head == [] {
          assert head + rest == rest;
          assert !HasName(es[1..], x) by {
            forall i | 0 <= i < |es[1..]| ensures es[1..][i].name != x {
              assert es[1..][i] == es[i + 1];
            }
          }
          FindChildNone(es[1..], x);
        } else {
          assert (head + rest)[0] == head[0];
        }
      } else {
        FindChildConcat(head, rest, x);
      }
    }
  }

  /**
   A link at `s` below the directory `n` is unlinked as a leaf: it is gone
   afterwards exactly when its own unlink is allowed, whatever else below
   `n` is refused, and a refused link keeps `n` from being removed.
   */
  lemma {:induction false} LinkInTree(env: Env, p: Path, n: Node, s: Path, preserve: bool, t: Path)
    requires n.Dir? && WellFormed(n)
    requires Lookup(n, s) == Some(Link(t))
    ensures !UnlinkAllowed(env, p + s) ==> DeleteTree(env, p, n, preserve).Some?
    ensures DeleteTree(env, p, n, preserve).Some? ==>
      Lookup(DeleteTree(env, p, n, preserve).value, s) == if UnlinkAllowed(env, p + s) then None else Some(Link(t))
    decreases |s|
  {
    assert s != [];
    var x, rest := s[0], s[1..];
    var es := n.entries;
    var i := FindChildIndex(es, x);
    var c := es[i].node;
    assert es[i] == Entry(x, c);
    assert WellFormed(c);
    assert Lookup(c, rest) == Some(Link(t));
    FindSurvivor(env, p, es, x);
    if !UnlinkAllowed(env, p + s) {
      assert RefusedAt(env, p, n, s);
      TreeFate(env, p, n);
    }
    if rest == [] {
      assert p + s == p + [x];
    } else {
      LookupLeafBelow(c, rest);
      assert p + s == (p + [x]) + rest;
      LinkInTree(env, p + [x], c, rest, false, t);
    }
    assert s == [x] + rest;
  }

  // ---------------------------------------------------------------------
  // The walk applied to the filesystem.
  // ---------------------------------------------------------------------

  /**
   Deleting the directory at `d`: false with no change when `d` is not a
   directory; otherwise true, whatever failed, with the walk's result in
   place of the subtree and every path outside it untouched.
   */
  function DeleteAt(fs: Node, env: Env, d: Path, preserve: bool): (r: Outcome<bool>)
    ensures r.value <==> IsDirectory(fs, d)
    ensures !r.value ==> r.fs == fs
    ensures r.value ==> Lookup(r.fs, d) == DeleteTree(env, d, Lookup(fs, d).value, preserve)
    ensures r.value && preserve ==> IsDirectory(r.fs, d)
    ensures forall q :: Disjoint(d, q) ==> Lookup(r.fs, q) == Lookup(fs, q)
  {
    if IsDirectory(fs, d) then
      var n := Lookup(fs, d).value;
      match DeleteTree(env, d, n, preserve)
      case None =>
        PruneFacts(fs, d);
        Outcome(Prune(fs, d), true)
      case Some(m) =>
        LookupReachable(fs, d);
        LookupGraftSame(fs, d, m);
        GraftFrame(fs, d, m);
        Outcome(Graft(fs, d, m), true)
    else
      Outcome(fs, false)
  }

  /** Without preserve, the directory is gone afterwards exactly when no removal in its subtree was refused. */
  lemma DeleteRemovesIffUnblocked(fs: Node, env: Env, d: Path)
    requires WellFormed(fs) && IsDirectory(fs, d)
    ensures Lookup(DeleteAt(fs, env, d, false).fs, d).None? <==> !Blocked(env, d, Lookup(fs, d).value)
  {
    WellFormedLookup(fs, d);
    TreeFate(env, d, Lookup(fs, d).value);
  }

  /** With preserve, the directory remains, and it is left empty exactly when no removal below it was refused. */
  lemma CleanEmptiesIffUnblocked(fs: Node, env: Env, d: Path)
    requires WellFormed(fs) && IsDirectory(fs, d)
    ensures IsDirectory(DeleteAt(fs, env, d, true).fs, d)
    ensures Lookup(DeleteAt(fs, env, d, true).fs, d) == Some(Dir([], Lookup(fs, d).value.mode))
      <==> !BlockedBelow(env, d, Lookup(fs, d).value)
  {
    WellFormedLookup(fs, d);
    TreeFate(env, d, Lookup(fs, d).value);
  }

  /** After an unobstructed clean, nothing below the directory remains. */
  lemma CleanLeavesNoDescendant(fs: Node, env: Env, d: Path, q: Path)
    requires WellFormed(fs) && IsDirectory(fs, d)
    requires !BlockedBelow(env, d, Lookup(fs, d).value)
    requires q != []
    ensures Lookup(DeleteAt(fs, env, d, true).fs, d + q).None?
  {
    CleanEmptiesIffUnblocked(fs, env, d);
    LookupAppend(DeleteAt(fs, env, d, true).fs, d, q);
  }

  /** Links are leaves: a link anywhere below `d` is removed by its own unlink, whatever else is refused, and otherwise stays. */
  lemma LinkUnlinkedAsLeaf(fs: Node, env: Env, d: Path, s: Path, preserve: bool)
    requires WellFormed(fs) && IsDirectory(fs, d)
    requires Lookup(fs, d + s).Some? && Lookup(fs, d + s).value.Link?
    ensures Lookup(DeleteAt(fs, env, d, preserve).fs, d + s)
      == if UnlinkAllowed(env, d + s) then None else Lookup(fs, d + s)
  {
    var n := Lookup(fs, d).value;
    WellFormedLookup(fs, d);
    LookupAppend(fs, d, s);
    LinkInTree(env, d, n, s, preserve, Lookup(fs, d + s).value.target);
    LookupAppend(DeleteAt(fs, env, d, preserve).fs, d, s);
  }

  /** Links are leaves: the subtree a link below `d` points at, when it lies outside `d`, is left as it was. */
  lemma LinkTargetUntouched(fs: Node, env: Env, d: Path, s: Path, preserve: bool)
    requires Lookup(fs, d + s).Some? && Lookup(fs, d + s).value.Link?
    requires Disjoint(d, Lookup(fs, d + s).value.target)
    ensures Lookup(DeleteAt(fs, env, d, preserve).fs, Lookup(fs, d + s).value.target)
      == Lookup(fs, Lookup(fs, d + s).value.target)
  {
  }
}
