/**
 The Filesystem facade: methods that take their paths as arguments.
 Batch exists is all-or-nothing, batch delete attempts every path.
 deleteDirectory is modelled here as the facade writes it, a loop over the
 directory's listing that threads the filesystem through each unlink and
 recursive call and ends with rmdir; `DeleteDirectoryAgrees` shows it is
 the structural walk Directory::delete runs.
 */
module Facade {
  import opened Wrappers
  import opened Paths
  import opened Tree
  import opened Host
  import DeleteWalk
  import FileEntry
  import DirectoryEntry

  /** A path argument: one path, or an array of paths. */
  datatype PathArg = One(path: Path) | Many(paths: seq<Path>)

  /** The (array) cast: one path becomes a one-element list. */
  function Listed(a: PathArg): seq<Path>
  {
    match a
    case One(p) => [p]
    case Many(ps) => ps
  }

  /** The loop of exists(): stops at the first missing path. */
  function AllExist(fs: Node, ps: seq<Path>): (r: bool)
    ensures r <==> forall i :: 0 <= i < |ps| ==> Host.Exists(fs, ps[i])
    decreases |ps|
  {
    if ps == [] then true
    else if !Host.Exists(fs, ps[0]) then false
    else AllExist(fs, ps[1..])
  }

  /** exists($paths): every listed path exists; an empty list yields true. */
  function Exists(fs: Node, a: PathArg): (r: bool)
    ensures r <==> forall p :: p in Listed(a) ==> Host.Exists(fs, p)
  {
    AllExist(fs, Listed(a))
  }

  // ---------------------------------------------------------------------
  // Batch delete: attempt-all
  // ---------------------------------------------------------------------

  /** The loop of delete(): every path is unlinked in turn, whatever happened before; true iff every unlink succeeded. */
  function DeleteAll(fs: Node, env: Env, ps: seq<Path>): (r: Outcome<bool>)
    ensures r.value ==> forall i :: 0 <= i < |ps| ==> Lookup(r.fs, ps[i]).None?
    ensures forall q :: Lookup(fs, q).None? ==> Lookup(r.fs, q).None?
    ensures forall q :: (forall i :: 0 <= i < |ps| ==> Disjoint(ps[i], q)) ==> Lookup(r.fs, q) == Lookup(fs, q)
    decreases |ps|
  {
    if ps == [] then Outcome(fs, true)
    else
      var u := Unlink(fs, env, ps[0]);
      var rest := DeleteAll(u.fs, env, ps[1..]);
      assert forall i :: 1 <= i < |ps| ==> ps[i] == ps[1..][i - 1];
      Outcome(rest.fs, u.value && rest.value)
  }

  /** delete($paths): the `(array)` cast, then the attempt-all loop. */
  function Delete(fs: Node, env: Env, a: PathArg): (r: Outcome<bool>)
    ensures r.value ==> forall p :: p in Listed(a) ==> Lookup(r.fs, p).None?
    ensures forall q :: (forall p :: p in Listed(a) ==> Disjoint(p, q)) ==> Lookup(r.fs, q) == Lookup(fs, q)
  {
    DeleteAll(fs, env, Listed(a))
  }

  /** No path is listed twice. */
  predicate Distinct(ps: seq<Path>)
  {
    forall i, j :: 0 <= i < j < |ps| ==> ps[i] != ps[j]
  }

  /** An unlink of this path would succeed. */
  predicate Removable(fs: Node, env: Env, p: Path)
  {
    Lookup(fs, p).Some? && !Lookup(fs, p).value.Dir? && UnlinkAllowed(env, p)
  }

  /** Something found strictly below `q` makes `q` a directory. */
  lemma AncestorIsDir(fs: Node, q: Path, s: Path)
    requires s != [] && Lookup(fs, q + s).Some?
    ensures IsDirectory(fs, q)
  {
    LookupAppend(fs, q, s);
    LookupLeafBelow(Lookup(fs, q).value, s);
  }

  /** Unlinking one path does not change whether another path can be unlinked. */
  lemma UnlinkKeepsOthers(fs: Node, env: Env, p: Path, q: Path)
    requires p != q
    ensures Removable(Unlink(fs, env, p).fs, env, q) <==> Removable(fs, env, q)
  {
    var u := Unlink(fs, env, p);
    if u.value && !Disjoint(p, q) {
      if IsPrefix(p, q) {
        var s := q[|p|..];
        assert q == p + s;
        LookupAppend(fs, p, s);
        LookupLeaf(Lookup(fs, p).value, s);
        LookupAppend(u.fs, p, s);
      } else {
        var s := p[|q|..];
        assert p == q + s;
        AncestorIsDir(fs, q, s);
        var par := Parent(p);
        assert p == par + [Last(p)];
        AncestorIsDir(fs, par, [Last(p)]);
        var d := Lookup(fs, par).value;
        var m := Dir(RemoveChild(d.entries, Last(p)), d.mode);
        assert u.fs == Graft(fs, par, m);
        if q == par {
          LookupReachable(fs, par);
          LookupGraftSame(fs, par, m);
        } else {
          assert par[..|q|] == p[..|q|];
          GraftKeepsAncestor(fs, par, m, q);
        }
      }
    }
  }

  /**
   Attempt-all: on distinct paths, delete() succeeds exactly when every path
   could be unlinked, and every path that could be unlinked is gone
   afterwards, whatever happened to the others.
   */
  lemma {:induction false} DeleteAttemptsAll(fs: Node, env: Env, ps: seq<Path>)
    requires forall i, j :: 0 <= i < j < |ps| ==> ps[i] != ps[j]
    ensures DeleteAll(fs, env, ps).value <==> forall i :: 0 <= i < |ps| ==> Removable(fs, env, ps[i])
    ensures forall i :: 0 <= i < |ps| && Removable(fs, env, ps[i]) ==> Lookup(DeleteAll(fs, env, ps).fs, ps[i]).None?
    decreases |ps|
  {
    if ps != [] {
      var u := Unlink(fs, env, ps[0]);
      var rest := ps[1..];
      forall j | 0 <= j < |rest|
        ensures Removable(u.fs, env, rest[j]) <==> Removable(fs, env, rest[j])
      {
        assert rest[j] == ps[j + 1];
        UnlinkKeepsOthers(fs, env, ps[0], rest[j]);
      }
      DeleteAttemptsAll(u.fs, env, rest);
      assert forall i :: 1 <= i < |ps| ==> ps[i] == rest[i - 1];
    }
  }

  /** delete($paths) on distinct paths returns true exactly when every listed path could be unlinked. */
  lemma DeleteIffRemovable(fs: Node, env: Env, a: PathArg)
    requires Distinct(Listed(a))
    ensures Delete(fs, env, a).value <==> forall p :: p in Listed(a) ==> Removable(fs, env, p)
  {
    DeleteAttemptsAll(fs, env, Listed(a));
  }

  // ---------------------------------------------------------------------
  // Content
  // ---------------------------------------------------------------------

  /** prepend($path, $data) as written: put(data . get()) when exists($path), put(data) otherwise. */
  function Prepend(fs: Node, env: Env, p: Path, data: Bytes): (r: Outcome<Option<nat>>)
    ensures !Host.Exists(fs, p) ==> r == WriteFile(fs, env, p, data)
    ensures r.value.Some? && ReadFile(fs, env, p).Some? ==>
      r.value.value == |data| + |OldContent(fs, p)| && OldContent(r.fs, p) == data + OldContent(fs, p)
    ensures r.value.None? ==> r.fs == fs
    ensures forall q :: Disjoint(p, q) ==> Lookup(r.fs, q) == Lookup(fs, q)
  {
    if Exists(fs, One(p)) then WriteFile(fs, env, p, data + ReadFile(fs, env, p).GetOr([]))
    else WriteFile(fs, env, p, data)
  }

  /** The facade's prepend is the File class's. */
  lemma PrependAgrees(fs: Node, env: Env, p: Path, data: Bytes)
    ensures Prepend(fs, env, p, data) == FileEntry.Prepend(fs, env, FileEntry.FileHandle(p), data)
  {
    assert Exists(fs, One(p)) == Host.Exists(fs, p);
  }

  // ---------------------------------------------------------------------
  // deleteDirectory as the facade writes it
  // ---------------------------------------------------------------------

  /** deleteDirectory($directory, $preserve) */
  function DeleteDirectory(fs: Node, env: Env, d: Path, preserve: bool): (r: Outcome<bool>)
    ensures r.value <==> IsDirectory(fs, d)
    ensures !r.value ==> r.fs == fs
  {
    if IsDirectory(fs, d) then WalkDelete(fs, env, d, Lookup(fs, d).value, preserve)
    else Outcome(fs, false)
  }

  /** One call of deleteDirectory on `d`, whose listing is `n`: the loop, then rmdir unless preserving. */
  function WalkDelete(fs: Node, env: Env, d: Path, n: Node, preserve: bool): (r: Outcome<bool>)
    requires n.Dir?
    ensures r.value <==> IsDirectory(fs, d)
    decreases n, 1
  {
    if !IsDirectory(fs, d) then Outcome(fs, false)
    else
      var swept := WalkEntries(fs, env, d, n.entries);
      Outcome(if preserve then swept else Rmdir(swept, env, d).fs, true)
  }

  function WalkEntries(fs: Node, env: Env, d: Path, es: seq<Entry>): Node
    decreases es, 0
  {
    if es == [] then fs else WalkEntries(WalkEntry(fs, env, d, es[0]), env, d, es[1..])
  }

  /** A non-link subdirectory is deleted recursively without preserving it; anything else goes through delete(). */
  function WalkEntry(fs: Node, env: Env, d: Path, e: Entry): Node
    decreases e
  {
    var q := d + [e.name];
    if e.node.Dir? then WalkDelete(fs, env, q, e.node, false).fs else Delete(fs, env, One(q)).fs
  }

  /** cleanDirectory($directory): deleteDirectory with preserve; on a real tree the directory stays and nothing outside it changes. */
  function CleanDirectory(fs: Node, env: Env, d: Path): (r: Outcome<bool>)
    ensures r.value <==> IsDirectory(fs, d)
    ensures !r.value ==> r.fs == fs
    ensures WellFormed(fs) && r.value ==> IsDirectory(r.fs, d)
    ensures WellFormed(fs) ==> forall q :: Disjoint(d, q) ==> Lookup(r.fs, q) == Lookup(fs, q)
  {
    if WellFormed(fs) then
      DeleteDirectoryAgrees(fs, env, d, true);
      DeleteDirectory(fs, env, d, true)
    else
      DeleteDirectory(fs, env, d, true)
  }

  /** delete() on one path is one unlink. */
  lemma UnlinkAlone(fs: Node, env: Env, q: Path)
    ensures Delete(fs, env, One(q)) == Unlink(fs, env, q)
  {
    assert [q][1..] == [];
    var u := Unlink(fs, env, q);
    assert DeleteAll(u.fs, env, []) == Outcome(u.fs, true);
  }

  lemma FindInListing(k: seq<Entry>, e: Entry, rest: seq<Entry>)
    requires !HasName(k, e.name)
    ensures FindChild(k + [e] + rest, e.name) == Some(e.node)
  {
    assert k + [e] + rest == k + ([e] + rest);
    FindChildConcat(k, [e] + rest, e.name);
  }

  lemma RemoveFromListing(k: seq<Entry>, e: Entry, rest: seq<Entry>)
    requires !HasName(k, e.name) && !HasName(rest, e.name)
    ensures RemoveChild(k + [e] + rest, e.name) == k + rest
  {
    RemoveChildConcat(k + [e], rest, e.name);
    RemoveChildConcat(k, [e], e.name);
    RemoveChildAbsent(k, e.name);
    RemoveChildAbsent(rest, e.name);
    assert RemoveChild([e], e.name) == [];
  }

  lemma SetInListing(k: seq<Entry>, e: Entry, rest: seq<Entry>, m: Node)
    requires !HasName(k, e.name)
    ensures SetChild(k + [e] + rest, e.name, m) == k + [Entry(e.name, m)] + rest
  {
    assert k + [e] + rest == k + ([e] + rest);
    SetChildConcat(k, [e] + rest, e.name, m);
    assert ([e] + rest)[1..] == rest;
  }

  /** Removing the entry `e` of the directory written at `d`. */
  lemma PruneInListing(fs: Node, d: Path, k: seq<Entry>, e: Entry, rest: seq<Entry>, mode: nat)
    requires Reachable(fs, d)
    requires !HasName(k, e.name) && !HasName(rest, e.name)
    ensures Prune(Graft(fs, d, Dir(k + [e] + rest, mode)), d + [e.name]) == Graft(fs, d, Dir(k + rest, mode))
  {
    var fs1 := Graft(fs, d, Dir(k + [e] + rest, mode));
    LookupGraftSame(fs, d, Dir(k + [e] + rest, mode));
    assert Parent(d + [e.name]) == d && Last(d + [e.name]) == e.name;
    RemoveFromListing(k, e, rest);
    GraftTwice(fs, d, Dir(k + [e] + rest, mode), Dir(k + rest, mode));
  }

  /** Rewriting the entry `e` of the directory written at `d`. */
  lemma GraftInListing(fs: Node, d: Path, k: seq<Entry>, e: Entry, rest: seq<Entry>, mode: nat, m: Node)
    requires Reachable(fs, d)
    requires !HasName(k, e.name)
    ensures Graft(Graft(fs, d, Dir(k + [e] + rest, mode)), d + [e.name], m)
      == Graft(fs, d, Dir(k + [Entry(e.name, m)] + rest, mode))
  {
    var fs1 := Graft(fs, d, Dir(k + [e] + rest, mode));
    LookupGraftSame(fs, d, Dir(k + [e] + rest, mode));
    GraftAppend(fs1, d, [e.name], m);
    FindInListing(k, e, rest);
    SetInListing(k, e, rest, m);
    assert [e.name][1..] == [];
    assert Graft(Dir(k + [e] + rest, mode), [e.name], m) == Dir(k + [Entry(e.name, m)] + rest, mode);
    GraftTwice(fs, d, Dir(k + [e] + rest, mode), Dir(k + [Entry(e.name, m)] + rest, mode));
  }

  /** One step of the loop leaves the directory listing with `e` replaced by what the structural walk keeps of it. */
  lemma {:induction false} WalkStep(fs: Node, env: Env, d: Path, k: seq<Entry>, e: Entry, rest: seq<Entry>, mode: nat)
    requires Reachable(fs, d)
    requires !HasName(k, e.name) && !HasName(rest, e.name)
    requires WellFormed(e.node)
    ensures WalkEntry(Graft(fs, d, Dir(k + [e] + rest, mode)), env, d, e)
      == Graft(fs, d, Dir(k + DeleteWalk.DeleteEntry(env, d, e) + rest, mode))
    decreases e
  {
    var q := d + [e.name];
    var fs1 := Graft(fs, d, Dir(k + [e] + rest, mode));
    LookupGraftSame(fs, d, Dir(k + [e] + rest, mode));
    LookupAppend(fs1, d, [e.name]);
    FindInListing(k, e, rest);
    assert [e.name][1..] == [];
    assert Lookup(fs1, q) == Some(e.node);
    if e.node.Dir? {
      WalkStepDir(fs, env, d, k, e, rest, mode);
    } else {
      UnlinkAlone(fs1, env, q);
      PruneInListing(fs, d, k, e, rest, mode);
      assert k + [] + rest == k + rest;
    }
  }

  /** The step for a subdirectory: the recursive call is the structural walk of that subtree. */
  lemma {:induction false} WalkStepDir(fs: Node, env: Env, d: Path, k: seq<Entry>, e: Entry, rest: seq<Entry>, mode: nat)
    requires Reachable(fs, d)
    requires !HasName(k, e.name) && !HasName(rest, e.name)
    requires WellFormed(e.node) && e.node.Dir?
    requires Lookup(Graft(fs, d, Dir(k + [e] + rest, mode)), d + [e.name]) == Some(e.node)
    ensures WalkDelete(Graft(fs, d, Dir(k + [e] + rest, mode)), env, d + [e.name], e.node, false).fs
      == Graft(fs, d, Dir(k + DeleteWalk.DeleteEntry(env, d, e) + rest, mode))
    decreases e, 0
  {
    var q := d + [e.name];
    var fs1 := Graft(fs, d, Dir(k + [e] + rest, mode));
    WalkDeleteIsDeleteAt(fs1, env, q, e.node, false);
    match DeleteWalk.DeleteTree(env, q, e.node, false)
    case None =>
      PruneInListing(fs, d, k, e, rest, mode);
      assert k + [] + rest == k + rest;
    case Some(m) =>
      GraftInListing(fs, d, k, e, rest, mode, m);
  }

  /** The loop over a listing ends with the structural walk's survivors in place of the listing. */
  lemma {:induction false} WalkEntriesIsGraft(fs: Node, env: Env, d: Path, k: seq<Entry>, es: seq<Entry>, mode: nat)
    requires Reachable(fs, d)
    requires DistinctNames(es)
    requires forall i, j :: 0 <= i < |k| && 0 <= j < |es| ==> k[i].name != es[j].name
    requires forall i :: 0 <= i < |es| ==> WellFormed(es[i].node)
    ensures WalkEntries(Graft(fs, d, Dir(k + es, mode)), env, d, es)
      == Graft(fs, d, Dir(k + DeleteWalk.DeleteEntries(env, d, es), mode))
    decreases es, 0
  {
    if es == [] {
      assert k + es == k + [];
    } else {
      var e, rest := es[0], es[1..];
      assert es == [e] + rest;
      assert k + es == k + [e] + rest;
      assert !HasName(rest, e.name) by {
        forall j | 0 <= j < |rest| ensures rest[j].name != e.name {
          assert rest[j] == es[j + 1];
        }
      }
      assert !HasName(k, e.name);
      WalkStep(fs, env, d, k, e, rest, mode);
      var kept := DeleteWalk.DeleteEntry(env, d, e);
      assert forall i :: 0 <= i < |kept| ==> kept[i].name == e.name;
      var k2 := k + kept;
      forall i, j | 0 <= i < |k2| && 0 <= j < |rest| ensures k2[i].name != rest[j].name {
        assert rest[j] == es[j + 1];
        if i >= |k| {
          assert k2[i] == kept[i - |k|];
        }
      }
      forall i | 0 <= i < |rest| ensures WellFormed(rest[i].node) {
        assert rest[i] == es[i + 1];
      }
      assert k + kept + rest == k2 + rest;
      WalkEntriesIsGraft(fs, env, d, k2, rest, mode);
      assert k2 + DeleteWalk.DeleteEntries(env, d, rest) == k + DeleteWalk.DeleteEntries(env, d, es);
    }
  }

  /** One call of the facade's loop is the structural walk on the same directory. */
  lemma {:induction false} WalkDeleteIsDeleteAt(fs: Node, env: Env, d: Path, n: Node, preserve: bool)
    requires Lookup(fs, d) == Some(n) && n.Dir? && WellFormed(n)
    ensures WalkDelete(fs, env, d, n, preserve) == DeleteWalk.DeleteAt(fs, env, d, preserve)
    decreases n, 1
  {
    var es, mode := n.entries, n.mode;
    LookupReachable(fs, d);
    GraftLookup(fs, d);
    assert [] + es == es;
    WalkEntriesIsGraft(fs, env, d, [], es, mode);
    var kept := DeleteWalk.DeleteEntries(env, d, es);
    assert [] + kept == kept;
    var swept := Graft(fs, d, Dir(kept, mode));
    assert WalkEntries(fs, env, d, es) == swept;
    LookupGraftSame(fs, d, Dir(kept, mode));
    if !preserve && kept == [] && RmdirAllowed(env, d) {
      PruneGraft(fs, d, Dir(kept, mode));
    }
  }

  /** The facade's deleteDirectory and Directory::delete agree on every directory tree. */
  lemma DeleteDirectoryAgrees(fs: Node, env: Env, d: Path, preserve: bool)
    requires WellFormed(fs)
    ensures DeleteDirectory(fs, env, d, preserve) == DirectoryEntry.Delete(fs, env, DirectoryEntry.DirHandle(d), preserve)
  {
    if IsDirectory(fs, d) {
      WellFormedLookup(fs, d);
      WalkDeleteIsDeleteAt(fs, env, d, Lookup(fs, d).value, preserve);
    }
  }

  /** cleanDirectory keeps the directory, and empties it exactly when nothing below it refuses removal. */
  lemma CleanDirectoryEmpties(fs: Node, env: Env, d: Path)
    requires WellFormed(fs) && IsDirectory(fs, d)
    ensures CleanDirectory(fs, env, d).value && IsDirectory(CleanDirectory(fs, env, d).fs, d)
    ensures Lookup(CleanDirectory(fs, env, d).fs, d) == Some(Dir([], Lookup(fs, d).value.mode))
      <==> !DeleteWalk.BlockedBelow(env, d, Lookup(fs, d).value)
  {
    DeleteDirectoryAgrees(fs, env, d, true);
    DeleteWalk.CleanEmptiesIffUnblocked(fs, env, d);
  }

  /** The walk's decision on a leaf is the one delete() and File::delete make on it. */
  lemma LeafDecisionAgrees(fs: Node, env: Env, p: Path, e: Entry)
    requires Lookup(fs, p + [e.name]) == Some(e.node) && !e.node.Dir?
    ensures DeleteWalk.DeleteEntry(env, p, e) == [] <==> Delete(fs, env, One(p + [e.name])).value
    ensures Delete(fs, env, One(p + [e.name])).value == FileEntry.Delete(fs, env, FileEntry.FileHandle(p + [e.name])).value
  {
    UnlinkAlone(fs, env, p + [e.name]);
  }
}
