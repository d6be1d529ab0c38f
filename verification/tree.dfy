/**
 The abstract filesystem: an immutable tree of files, directories and
 symbolic links. A directory holds its entries in listing order, so the
 order a directory iterator visits children in is part of the input.
 Lookup reads the node at a component path; Graft writes one; Prune
 removes one. Everything the wrappers do to the disk is expressed with
 these three.
 */
module Tree {
  import opened Wrappers
  import opened Paths

  newtype byte = x: int | 0 <= x < 256

  /** File contents: PHP strings are byte strings. */
  type Bytes = seq<byte>

  /** `mode` holds the permission bits (at most 07777 once set by the host). */
  datatype Node =
    | File(content: Bytes, mode: nat)
    | Dir(entries: seq<Entry>, mode: nat)
    | Link(target: Path)

  datatype Entry = Entry(name: Name, node: Node)

  // ---------------------------------------------------------------------
  // Directory entries
  // ---------------------------------------------------------------------

  /** The node of the first entry named `x`. */
  function FindChild(es: seq<Entry>, x: Name): Option<Node>
  {
    if es == [] then None
    else if es[0].name == x then Some(es[0].node)
    else FindChild(es[1..], x)
  }

  /** Replaces the node of the first entry named `x`, or appends a new entry when there is none. */
  function SetChild(es: seq<Entry>, x: Name, c: Node): seq<Entry>
  {
    if es == [] then [Entry(x, c)]
    else if es[0].name == x then [Entry(x, c)] + es[1..]
    else [es[0]] + SetChild(es[1..], x, c)
  }

  /** Drops the entries named `x`. */
  function RemoveChild(es: seq<Entry>, x: Name): seq<Entry>
  {
    if es == [] then []
    else if es[0].name == x then RemoveChild(es[1..], x)
    else [es[0]] + RemoveChild(es[1..], x)
  }

  predicate HasName(es: seq<Entry>, x: Name)
  {
    exists i :: 0 <= i < |es| && es[i].name == x
  }

  predicate DistinctNames(es: seq<Entry>)
  {
    forall i, j :: 0 <= i < j < |es| ==> es[i].name != es[j].name
  }

  /** Every directory below has distinct, listable names: what a real directory tree looks like. */
  predicate WellFormed(n: Node)
  {
    match n
    case Dir(es, _) =>
      && DistinctNames(es)
      && (forall i :: 0 <= i < |es| ==> ValidName(es[i].name))
      && (forall i :: 0 <= i < |es| ==> WellFormed(es[i].node))
    case _ => true
  }

  lemma FindChildNone(es: seq<Entry>, x: Name)
    ensures FindChild(es, x).None? <==> !HasName(es, x)
  {
    if es != [] {
      FindChildNone(es[1..], x);
      if HasName(es[1..], x) {
        var i :| 0 <= i < |es[1..]| && es[1..][i].name == x;
        assert es[i + 1].name == x;
      }
      if HasName(es, x) && es[0].name != x {
        var i :| 0 <= i < |es| && es[i].name == x;
        assert es[1..][i - 1].name == x;
      }
    }
  }

  /** With distinct names, looking an entry's name up finds that entry. */
  lemma FindChildAt(es: seq<Entry>, i: int)
    requires DistinctNames(es)
    requires 0 <= i < |es|
    ensures FindChild(es, es[i].name) == Some(es[i].node)
  {
    if i > 0 {
      FindChildAt(es[1..], i - 1);
    }
  }

  /** A found child is one of the entries. */
  lemma FindChildIndex(es: seq<Entry>, x: Name) returns (i: int)
    requires FindChild(es, x).Some?
    ensures 0 <= i < |es| && es[i].name == x && es[i].node == FindChild(es, x).value
  {
    if es[0].name == x {
      i := 0;
    } else {
      var j := FindChildIndex(es[1..], x);
      i := j + 1;
    }
  }

  lemma FindSetSame(es: seq<Entry>, x: Name, c: Node)
    ensures FindChild(SetChild(es, x, c), x) == Some(c)
  {
  }

  lemma FindSetOther(es: seq<Entry>, x: Name, c: Node, y: Name)
    requires x != y
    ensures FindChild(SetChild(es, x, c), y) == FindChild(es, y)
  {
  }

  lemma SetSetSame(es: seq<Entry>, x: Name, a: Node, b: Node)
    ensures SetChild(SetChild(es, x, a), x, b) == SetChild(es, x, b)
  {
  }

  lemma SetFound(es: seq<Entry>, x: Name)
    requires FindChild(es, x).Some?
    ensures SetChild(es, x, FindChild(es, x).value) == es
  {
  }

  lemma SetAbsent(es: seq<Entry>, x: Name, c: Node)
    requires FindChild(es, x).None?
    ensures SetChild(es, x, c) == es + [Entry(x, c)]
  {
  }

  lemma FindRemoveSame(es: seq<Entry>, x: Name)
    ensures FindChild(RemoveChild(es, x), x).None?
  {
  }

  lemma FindRemoveOther(es: seq<Entry>, x: Name, y: Name)
    requires x != y
    ensures FindChild(RemoveChild(es, x), y) == FindChild(es, y)
  {
  }

  // ---------------------------------------------------------------------
  // Paths through the tree
  // ---------------------------------------------------------------------

  function Parent(p: Path): Path
    requires |p| > 0
  {
    p[..|p| - 1]
  }

  function Last(p: Path): Name
    requires |p| > 0
  {
    p[|p| - 1]
  }

  /** The node at `p`. Symbolic links are not followed: a path through a link reaches nothing. */
  function Lookup(n: Node, p: Path): Option<Node>
    decreases |p|
  {
    if p == [] then Some(n)
    else match n
      case Dir(es, _) =>
        (match FindChild(es, p[0])
         case Some(c) => Lookup(c, p[1..])
         case None => None)
      case _ => None
  }

  /** The directory that would hold `p` exists. */
  predicate ParentIsDir(n: Node, p: Path)
  {
    |p| > 0 && Lookup(n, Parent(p)).Some? && Lookup(n, Parent(p)).value.Dir?
  }

  /** A write at `p` takes effect: `p` is the root or its parent is a directory. */
  predicate Reachable(n: Node, p: Path)
  {
    p == [] || ParentIsDir(n, p)
  }

  /** The tree with `m` at `p`; unchanged when the parent of `p` is not a directory. */
  function Graft(n: Node, p: Path, m: Node): Node
    decreases |p|
  {
    if p == [] then m
    else match n
      case Dir(es, mode) =>
        (match FindChild(es, p[0])
         case Some(c) => Dir(SetChild(es, p[0], Graft(c, p[1..], m)), mode)
         case None => if |p| == 1 then Dir(SetChild(es, p[0], m), mode) else n)
      case _ => n
  }

  /** The tree without the node at `p`; unchanged when there is nothing to remove. The root stays. */
  function Prune(n: Node, p: Path): Node
  {
    if p == [] then n
    else match Lookup(n, Parent(p))
      case Some(Dir(es, mode)) => Graft(n, Parent(p), Dir(RemoveChild(es, Last(p)), mode))
      case _ => n
  }

  // ---------------------------------------------------------------------
  // The algebra of Lookup, Graft and Prune
  // ---------------------------------------------------------------------

  /** Looking up below a node found at `p` is looking up in that node. */
  lemma {:induction false} LookupAppend(n: Node, p: Path, q: Path)
    ensures Lookup(n, p + q) == (match Lookup(n, p) case Some(c) => Lookup(c, q) case None => None)
    decreases |p|
  {
    if p == [] {
      assert p + q == q;
    } else {
      assert (p + q)[0] == p[0];
      assert (p + q)[1..] == p[1..] + q;
      match n
      case Dir(es, _) => {
        match FindChild(es, p[0])
        case Some(c) => LookupAppend(c, p[1..], q);
        case None =>
      }
      case _ =>
    }
  }

  lemma LookupReachable(n: Node, p: Path)
    requires Lookup(n, p).Some?
    ensures Reachable(n, p)
  {
    if p != [] {
      assert p == Parent(p) + [Last(p)];
      LookupAppend(n, Parent(p), [Last(p)]);
    }
  }

  /** What was written at a reachable path is read back. */
  lemma {:induction false} LookupGraftSame(n: Node, p: Path, m: Node)
    requires Reachable(n, p)
    ensures Lookup(Graft(n, p, m), p) == Some(m)
    decreases |p|
  {
    if p != [] {
      var x, r := p[0], p[1..];
      assert p == [x] + r;
      if |p| > 1 {
        LookupAppend(n, [x], Parent(p)[1..]);
        assert Parent(p) == [x] + Parent(p)[1..];
      }
      var es := n.entries;
      match FindChild(es, x)
      case Some(c) =>
        FindSetSame(es, x, Graft(c, r, m));
        if r != [] {
          assert Parent(r) == Parent(p)[1..];
        }
        LookupGraftSame(c, r, m);
      case None =>
        FindSetSame(es, x, m);
    }
  }

  /** A write below a node found at `p` is a write of a modified node at `p`. */
  lemma {:induction false} GraftAppend(n: Node, p: Path, q: Path, m: Node)
    requires Lookup(n, p).Some?
    ensures Graft(n, p + q, m) == Graft(n, p, Graft(Lookup(n, p).value, q, m))
    decreases |p|
  {
    if p == [] {
      assert p + q == q;
    } else {
      assert (p + q)[0] == p[0];
      assert (p + q)[1..] == p[1..] + q;
      var c := FindChild(n.entries, p[0]).value;
      GraftAppend(c, p[1..], q, m);
    }
  }

  /** A second write at the same reachable path overrides the first. */
  lemma {:induction false} GraftTwice(n: Node, p: Path, a: Node, b: Node)
    requires Reachable(n, p)
    ensures Graft(Graft(n, p, a), p, b) == Graft(n, p, b)
    decreases |p|
  {
    if p != [] {
      var x, r := p[0], p[1..];
      if |p| > 1 {
        LookupAppend(n, [x], Parent(p)[1..]);
        assert Parent(p) == [x] + Parent(p)[1..];
      }
      var es := n.entries;
      match FindChild(es, x)
      case Some(c) =>
        if r != [] {
          assert Parent(r) == Parent(p)[1..];
        }
        GraftTwice(c, r, a, b);
        FindSetSame(es, x, Graft(c, r, a));
        SetSetSame(es, x, Graft(c, r, a), Graft(c, r, b));
      case None =>
        FindSetSame(es, x, a);
        SetSetSame(es, x, a, b);
    }
  }

  /** Writing back what is already there changes nothing. */
  lemma {:induction false} GraftLookup(n: Node, p: Path)
    requires Lookup(n, p).Some?
    ensures Graft(n, p, Lookup(n, p).value) == n
    decreases |p|
  {
    if p != [] {
      var c := FindChild(n.entries, p[0]).value;
      GraftLookup(c, p[1..]);
      SetFound(n.entries, p[0]);
    }
  }

  /** A write leaves every path disjoint from it as it was. */
  lemma {:induction false} LookupGraftDisjoint(n: Node, p: Path, m: Node, q: Path)
    requires Disjoint(p, q)
    ensures Lookup(Graft(n, p, m), q) == Lookup(n, q)
    decreases |p|
  {
    assert p != [] && q != [];
    var x, y := p[0], q[0];
    match n
    case Dir(es, mode) => {
      match FindChild(es, x)
      case Some(c) =>
        if x == y {
          assert p == [x] + p[1..] && q == [x] + q[1..];
          assert Disjoint(p[1..], q[1..]);
          LookupGraftDisjoint(c, p[1..], m, q[1..]);
          FindSetSame(es, x, Graft(c, p[1..], m));
        } else {
          FindSetOther(es, x, Graft(c, p[1..], m), y);
        }
      case None =>
        if |p| == 1 {
          FindSetOther(es, x, m, y);
        }
    }
    case _ =>
  }

  /** After a prune nothing is left at the pruned path. */
  lemma LookupPruneSame(n: Node, p: Path)
    requires p != []
    ensures Lookup(Prune(n, p), p).None?
  {
    assert p == Parent(p) + [Last(p)];
    match Lookup(n, Parent(p))
    case Some(Dir(es, mode)) =>
      var d := Dir(RemoveChild(es, Last(p)), mode);
      LookupReachable(n, Parent(p));
      LookupGraftSame(n, Parent(p), d);
      LookupAppend(Graft(n, Parent(p), d), Parent(p), [Last(p)]);
      FindRemoveSame(es, Last(p));
    case _ =>
      LookupAppend(n, Parent(p), [Last(p)]);
  }

  /** A prune leaves every path disjoint from it as it was. */
  lemma LookupPruneDisjoint(n: Node, p: Path, q: Path)
    requires Disjoint(p, q)
    ensures Lookup(Prune(n, p), q) == Lookup(n, q)
  {
    assert p != [];
    var par, x := Parent(p), Last(p);
    assert p == par + [x];
    match Lookup(n, par)
    case Some(Dir(es, mode)) =>
      var d := Dir(RemoveChild(es, x), mode);
      if Disjoint(par, q) {
        LookupGraftDisjoint(n, par, d, q);
      } else if IsPrefix(q, par) {
      } else {
        // q lies strictly below the parent, beside p
        var s := q[|par|..];
        assert q == par + s;
        assert s != [];
        assert q[|par|] == s[0];
        LookupPruneBeside(n, par, es, mode, x, s);
      }
    case _ =>
  }

  /** Removing the child `x` of the directory at `par` leaves every path through a sibling as it was. */
  lemma LookupPruneBeside(n: Node, par: Path, es: seq<Entry>, mode: nat, x: Name, s: Path)
    requires Lookup(n, par) == Some(Dir(es, mode))
    requires s != [] && s[0] != x
    ensures Lookup(Graft(n, par, Dir(RemoveChild(es, x), mode)), par + s) == Lookup(n, par + s)
  {
    var d := Dir(RemoveChild(es, x), mode);
    LookupReachable(n, par);
    LookupGraftSame(n, par, d);
    LookupAppend(Graft(n, par, d), par, s);
    LookupAppend(n, par, s);
    assert s == [s[0]] + s[1..];
    FindRemoveOther(es, x, s[0]);
  }

  /** A prune never makes a node appear. */
  lemma LookupPruneAbsent(n: Node, p: Path, q: Path)
    requires Lookup(n, q).None?
    ensures Lookup(Prune(n, p), q).None?
  {
    if p != [] && Disjoint(p, q) {
      LookupPruneDisjoint(n, p, q);
    } else if p != [] && IsPrefix(p, q) {
      var s := q[|p|..];
      assert q == p + s;
      LookupAppend(Prune(n, p), p, s);
      LookupPruneSame(n, p);
    } else if p != [] {
      // q is a proper ancestor of p: the prune rewrites q's subtree only if q exists
      assert IsPrefix(q, p);
      match Lookup(n, Parent(p))
      case Some(Dir(es, mode)) =>
        var s := Parent(p)[|q|..];
        assert Parent(p) == q + s;
        LookupAppend(n, q, s);
        assert false;
      case _ =>
    }
  }

  /** Every node of a well-formed tree is well-formed. */
  lemma {:induction false} WellFormedLookup(n: Node, p: Path)
    requires WellFormed(n)
    requires Lookup(n, p).Some?
    ensures WellFormed(Lookup(n, p).value)
    decreases |p|
  {
    if p != [] {
      var i := FindChildIndex(n.entries, p[0]);
      WellFormedLookup(n.entries[i].node, p[1..]);
    }
  }

  /** Only the empty path reaches anything in a file or a link. */
  lemma LookupLeaf(n: Node, q: Path)
    requires !n.Dir?
    ensures Lookup(n, q).Some? <==> q == []
  {
  }

  /** Whatever is found strictly below a node makes that node a directory. */
  lemma LookupLeafBelow(n: Node, s: Path)
    requires s != [] && Lookup(n, s).Some?
    ensures n.Dir?
  {
    if !n.Dir? {
      LookupLeaf(n, s);
    }
  }

  /** Looking up a name in two listings: the first listing wins. */
  lemma FindChildConcat(a: seq<Entry>, b: seq<Entry>, x: Name)
    requires !HasName(a, x)
    ensures FindChild(a + b, x) == FindChild(b, x)
  {
    if a == [] {
      assert a + b == b;
    } else {
      assert (a + b)[0] == a[0];
      assert a[0].name != x;
      assert (a + b)[1..] == a[1..] + b;
      assert !HasName(a[1..], x) by {
        forall i | 0 <= i < |a[1..]| ensures a[1..][i].name != x {
          assert a[1..][i] == a[i + 1];
        }
      }
      FindChildConcat(a[1..], b, x);
    }
  }

  /** Replacing a name absent from the first listing happens in the second. */
  lemma SetChildConcat(a: seq<Entry>, b: seq<Entry>, x: Name, c: Node)
    requires !HasName(a, x)
    ensures SetChild(a + b, x, c) == a + SetChild(b, x, c)
  {
    if a == [] {
      assert a + b == b;
    } else {
      assert (a + b)[0] == a[0];
      assert a[0].name != x;
      assert (a + b)[1..] == a[1..] + b;
      assert !HasName(a[1..], x) by {
        forall i | 0 <= i < |a[1..]| ensures a[1..][i].name != x {
          assert a[1..][i] == a[i + 1];
        }
      }
      SetChildConcat(a[1..], b, x, c);
      assert a == [a[0]] + a[1..];
    }
  }

  /** Dropping a name from a listing is dropping it from each part. */
  lemma RemoveChildConcat(a: seq<Entry>, b: seq<Entry>, x: Name)
    ensures RemoveChild(a + b, x) == RemoveChild(a, x) + RemoveChild(b, x)
  {
    if a == [] {
      assert a + b == b;
    } else {
      assert (a + b)[0] == a[0];
      assert (a + b)[1..] == a[1..] + b;
      RemoveChildConcat(a[1..], b, x);
      if a[0].name != x {
        assert RemoveChild(a + b, x) == [a[0]] + RemoveChild(a[1..] + b, x);
        assert RemoveChild(a, x) == [a[0]] + RemoveChild(a[1..], x);
      }
    }
  }

  lemma RemoveChildAbsent(es: seq<Entry>, x: Name)
    requires !HasName(es, x)
    ensures RemoveChild(es, x) == es
  {
    if es != [] {
      assert !HasName(es[1..], x) by {
        forall i | 0 <= i < |es[1..]| ensures es[1..][i].name != x {
          assert es[1..][i] == es[i + 1];
        }
      }
      RemoveChildAbsent(es[1..], x);
      assert es == [es[0]] + es[1..];
    }
  }

  lemma RemoveSetSame(es: seq<Entry>, x: Name, c: Node)
    ensures RemoveChild(SetChild(es, x, c), x) == RemoveChild(es, x)
  {
  }

  /** Removing a node after rewriting it is removing the original. */
  lemma PruneGraft(n: Node, p: Path, m: Node)
    requires p != [] && Lookup(n, p).Some?
    ensures Prune(Graft(n, p, m), p) == Prune(n, p)
  {
    var par, x := Parent(p), Last(p);
    assert p == par + [x];
    LookupAppend(n, par, [x]);
    var d := Lookup(n, par).value;
    var rewritten := Dir(SetChild(d.entries, x, m), d.mode);
    GraftAppend(n, par, [x], m);
    assert [x][1..] == [];
    assert Graft(d, [x], m) == rewritten;
    LookupReachable(n, par);
    LookupGraftSame(n, par, rewritten);
    RemoveSetSame(d.entries, x, m);
    GraftTwice(n, par, rewritten, Dir(RemoveChild(d.entries, x), d.mode));
  }
}
