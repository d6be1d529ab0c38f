/**
 Directory::size: the sum of the sizes of the regular files at every depth
 below a directory. Directories contribute nothing themselves; a link is
 not followed, so it is neither descended into nor counted as a regular file.
 */
module Size {
  import opened Wrappers
  import opened Paths
  import opened Tree
  import opened Host
  import CopyWalk
  import DeleteWalk

  /** The bytes of the regular files in the subtree `n`. */
  function TreeSize(n: Node): nat
    decreases n
  {
    match n
    case File(c, _) => |c|
    case Dir(es, _) => EntriesSize(es)
    case Link(_) => 0
  }

  function EntriesSize(es: seq<Entry>): nat
    decreases es
  {
    if es == [] then 0 else TreeSize(es[0].node) + EntriesSize(es[1..])
  }

  /** The number of nodes in a subtree: what the size walk still has to visit. */
  function NodeCount(n: Node): nat
    decreases n
  {
    match n
    case Dir(es, _) => 1 + EntriesCount(es)
    case _ => 1
  }

  function EntriesCount(es: seq<Entry>): nat
    decreases es
  {
    if es == [] then 0 else NodeCount(es[0].node) + EntriesCount(es[1..])
  }

  lemma {:induction false} EntriesAppend(a: seq<Entry>, b: seq<Entry>)
    ensures EntriesSize(a + b) == EntriesSize(a) + EntriesSize(b)
    ensures EntriesCount(a + b) == EntriesCount(a) + EntriesCount(b)
    decreases a
  {
    if a == [] {
      assert a + b == b;
    } else {
      assert (a + b)[0] == a[0];
      assert (a + b)[1..] == a[1..] + b;
      EntriesAppend(a[1..], b);
    }
  }

  /**
   The size walk: a depth-first traversal in listing order that adds up the
   regular files. None when `p` is not a directory (the iterator cannot be
   opened).
   */
  method DirectorySize(fs: Node, p: Path) returns (r: Option<nat>)
    ensures r.None? <==> !IsDirectory(fs, p)
    ensures r.Some? ==> r.value == TreeSize(Lookup(fs, p).value)
  {
    if !IsDirectory(fs, p) {
      return None;
    }
    var root := Lookup(fs, p).value;
    var pending := root.entries;
    var total := 0;
    while pending != []
      invariant total + EntriesSize(pending) == TreeSize(root)
      decreases EntriesCount(pending)
    {
      var e, rest := pending[0], pending[1..];
      assert EntriesCount(pending) == NodeCount(e.node) + EntriesCount(rest);
      match e.node {
        case File(c, _) =>
          total := total + |c|;
          pending := rest;
        case Dir(es, _) =>
          EntriesAppend(es, rest);
          pending := es + rest;
        case Link(_) =>
          pending := rest;
      }
    }
    return Some(total);
  }

  /** A copy carries every file's bytes: the image of a tree has the tree's size. */
  lemma {:induction false} SizeOfImage(env: Env, n: Node)
    ensures TreeSize(CopyWalk.Image(env, n)) == TreeSize(n)
    decreases n, 1
  {
    if n.Dir? {
      SizeOfImageEntries(env, n.entries);
    }
  }

  lemma {:induction false} SizeOfImageEntries(env: Env, es: seq<Entry>)
    ensures EntriesSize(CopyWalk.ImageEntries(env, es)) == EntriesSize(es)
    decreases es, 0
  {
    if es != [] {
      SizeOfImage(env, es[0].node);
      SizeOfImageEntries(env, es[1..]);
    }
  }

  /** After an unobstructed clean the directory's size is 0. */
  lemma SizeAfterClean(fs: Node, env: Env, d: Path)
    requires WellFormed(fs) && IsDirectory(fs, d)
    requires !DeleteWalk.BlockedBelow(env, d, Lookup(fs, d).value)
    ensures IsDirectory(DeleteWalk.DeleteAt(fs, env, d, true).fs, d)
    ensures TreeSize(Lookup(DeleteWalk.DeleteAt(fs, env, d, true).fs, d).value) == 0
  {
    DeleteWalk.CleanEmptiesIffUnblocked(fs, env, d);
  }

  /** A new file written into an existing directory is a new last entry of that directory. */
  lemma WriteIntoDir(fs: Node, env: Env, d: Path, es: seq<Entry>, md: nat, x: Name, data: Bytes)
    requires Lookup(fs, d) == Some(Dir(es, md)) && FindChild(es, x).None?
    requires d + [x] !in env.writeFails
    ensures WriteFile(fs, env, d + [x], data).fs
      == Graft(fs, d, Dir(es + [Entry(x, File(data, CreationMode(env, FileCreateMode)))], md))
  {
    LookupReachable(fs, d);
    assert Parent(d + [x]) == d;
    CopyWalk.FreshChild(fs, d, es, md, x, File(data, CreationMode(env, FileCreateMode)));
    GraftLookup(fs, d);
  }

  /** A new directory made in an existing directory is a new last entry of that directory. */
  lemma MkdirIntoDir(fs: Node, env: Env, d: Path, es: seq<Entry>, md: nat, x: Name, mode: nat)
    requires Lookup(fs, d) == Some(Dir(es, md)) && FindChild(es, x).None?
    requires d + [x] !in env.mkdirFails
    ensures Mkdir(fs, env, d + [x], mode).fs == Graft(fs, d, Dir(es + [Entry(x, Dir([], CreationMode(env, mode)))], md))
  {
    LookupReachable(fs, d);
    assert Parent(d + [x]) == d;
    CopyWalk.FreshChild(fs, d, es, md, x, Dir([], CreationMode(env, mode)));
    GraftLookup(fs, d);
  }

  /** "hello world" */
  const HelloWorld: Bytes := [104, 101, 108, 108, 111, 32, 119, 111, 114, 108, 100]

  /** A host where the example's mkdir and write calls do not fail. */
  predicate ExampleHost(env: Env)
  {
    env.mkdirFails == {} && env.writeFails == {}
  }

  /** The example's trees after each step; `dm` and `fm` are the modes the host gives new directories and files. */
  function Stage(k: nat, dm: nat, fm: nat): Node
  {
    var f := File(HelloWorld, fm);
    var inner := if k < 5 then [] else if k == 5 then [Entry("1.txt", f)] else [Entry("1.txt", f), Entry("2.txt", f)];
    var top := [Entry("2", Dir(inner, dm))] + (if k < 3 then [] else if k == 3 then [Entry("1.txt", f)] else [Entry("1.txt", f), Entry("2.txt", f)]);
    if k == 0 then Dir([], 493)
    else if k == 1 then Dir([Entry("1", Dir([], dm))], 493)
    else Dir([Entry("1", Dir(top, dm))], 493)
  }

  lemma ExampleStep1(env: Env)
    requires ExampleHost(env)
    ensures Mkdir(Stage(0, CreationMode(env, 511), CreationMode(env, FileCreateMode)), env, ["1"], 511).fs
      == Stage(1, CreationMode(env, 511), CreationMode(env, FileCreateMode))
  {
    assert [] + ["1"] == ["1"];
    MkdirIntoDir(Dir([], 493), env, [], [], 493, "1", 511);
  }

  lemma ExampleStep2(env: Env)
    requires ExampleHost(env)
    ensures Mkdir(Stage(1, CreationMode(env, 511), CreationMode(env, FileCreateMode)), env, ["1", "2"], 511).fs
      == Stage(2, CreationMode(env, 511), CreationMode(env, FileCreateMode))
  {
    var dm := CreationMode(env, 511);
    assert ["1"] + ["2"] == ["1", "2"];
    var fs := Dir([Entry("1", Dir([], dm))], 493);
    assert Lookup(fs, ["1"]) == Some(Dir([], dm));
    MkdirIntoDir(fs, env, ["1"], [], dm, "2", 511);
    assert ["1"][1..] == [];
    assert [] + [Entry("2", Dir([], dm))] == [Entry("2", Dir([], dm))] + [];
  }

  lemma ExampleStep3(env: Env)
    requires ExampleHost(env)
    ensures WriteFile(Stage(2, CreationMode(env, 511), CreationMode(env, FileCreateMode)), env, ["1", "1.txt"], HelloWorld).fs
      == Stage(3, CreationMode(env, 511), CreationMode(env, FileCreateMode))
  {
    var dm := CreationMode(env, 511);
    var es := [Entry("2", Dir([], dm))];
    var fs := Dir([Entry("1", Dir(es, dm))], 493);
    assert ["1"] + ["1.txt"] == ["1", "1.txt"];
    assert Lookup(fs, ["1"]) == Some(Dir(es, dm));
    assert "2" != "1.txt";
    WriteIntoDir(fs, env, ["1"], es, dm, "1.txt", HelloWorld);
    assert ["1"][1..] == [];
  }

  lemma ExampleStep4(env: Env)
    requires ExampleHost(env)
    ensures WriteFile(Stage(3, CreationMode(env, 511), CreationMode(env, FileCreateMode)), env, ["1", "2.txt"], HelloWorld).fs
      == Stage(4, CreationMode(env, 511), CreationMode(env, FileCreateMode))
  {
    var dm := CreationMode(env, 511);
    var f := File(HelloWorld, CreationMode(env, FileCreateMode));
    var es := [Entry("2", Dir([], dm)), Entry("1.txt", f)];
    var fs := Dir([Entry("1", Dir(es, dm))], 493);
    assert ["1"] + ["2.txt"] == ["1", "2.txt"];
    assert Lookup(fs, ["1"]) == Some(Dir(es, dm));
    assert "1.txt"[0] != "2.txt"[0];
    assert es[1..] == [Entry("1.txt", f)] && es[1..][1..] == [];
    assert |"2"| != |"2.txt"|;
    assert FindChild(es[1..], "2.txt").None?;
    assert FindChild(es, "2.txt").None?;
    WriteIntoDir(fs, env, ["1"], es, dm, "2.txt", HelloWorld);
    assert es + [Entry("2.txt", f)] == [Entry("2", Dir([], dm))] + [Entry("1.txt", f), Entry("2.txt", f)];
    assert ["1"][1..] == [];
  }

  lemma ExampleStep5(env: Env)
    requires ExampleHost(env)
    ensures WriteFile(Stage(4, CreationMode(env, 511), CreationMode(env, FileCreateMode)), env, ["1", "2", "1.txt"], HelloWorld).fs
      == Stage(5, CreationMode(env, 511), CreationMode(env, FileCreateMode))
  {
    var dm := CreationMode(env, 511);
    var fs := Stage(4, dm, CreationMode(env, FileCreateMode));
    assert ["1", "2"] + ["1.txt"] == ["1", "2", "1.txt"];
    assert ["1", "2"][1..] == ["2"] && ["2"][1..] == [];
    assert Lookup(fs, ["1", "2"]) == Some(Dir([], dm));
    WriteIntoDir(fs, env, ["1", "2"], [], dm, "1.txt", HelloWorld);
  }

  lemma ExampleStep6(env: Env)
    requires ExampleHost(env)
    ensures WriteFile(Stage(5, CreationMode(env, 511), CreationMode(env, FileCreateMode)), env, ["1", "2", "2.txt"], HelloWorld).fs
      == Stage(6, CreationMode(env, 511), CreationMode(env, FileCreateMode))
  {
    var dm := CreationMode(env, 511);
    var f := File(HelloWorld, CreationMode(env, FileCreateMode));
    var fs := Stage(5, dm, CreationMode(env, FileCreateMode));
    assert ["1", "2"] + ["2.txt"] == ["1", "2", "2.txt"];
    assert ["1", "2"][1..] == ["2"] && ["2"][1..] == [];
    assert Lookup(fs, ["1", "2"]) == Some(Dir([Entry("1.txt", f)], dm));
    assert "1.txt"[0] != "2.txt"[0];
    WriteIntoDir(fs, env, ["1", "2"], [Entry("1.txt", f)], dm, "2.txt", HelloWorld);
    assert [Entry("1.txt", f)] + [Entry("2.txt", f)] == [Entry("1.txt", f), Entry("2.txt", f)];
  }

  lemma SizeOfStage6(dm: nat, fm: nat)
    ensures Stage(6, dm, fm).entries[0].node.Dir?
    ensures TreeSize(Stage(6, dm, fm).entries[0].node) == 44
  {
    var f := File(HelloWorld, fm);
    var inner := [Entry("1.txt", f), Entry("2.txt", f)];
    assert TreeSize(f) == 11;
    assert EntriesSize([Entry("2.txt", f)]) == 11 by {
      assert [Entry("2.txt", f)][1..] == [];
    }
    assert EntriesSize(inner) == 22 by {
      assert inner[1..] == [Entry("2.txt", f)];
    }
    var top := [Entry("2", Dir(inner, dm)), Entry("1.txt", f), Entry("2.txt", f)];
    assert Stage(6, dm, fm).entries[0].node == Dir(top, dm);
    assert top[1..] == inner;
    assert EntriesSize(top) == 22 + EntriesSize(inner);
  }

  /** The tree the source's size test builds: two directories made, then four files written. */
  function ExampleBuild(env: Env): Node
  {
    var fs1 := Mkdir(Dir([], 493), env, ["1"], 511).fs;
    var fs2 := Mkdir(fs1, env, ["1", "2"], 511).fs;
    var fs3 := WriteFile(fs2, env, ["1", "1.txt"], HelloWorld).fs;
    var fs4 := WriteFile(fs3, env, ["1", "2.txt"], HelloWorld).fs;
    var fs5 := WriteFile(fs4, env, ["1", "2", "1.txt"], HelloWorld).fs;
    WriteFile(fs5, env, ["1", "2", "2.txt"], HelloWorld).fs
  }

  /** Two directory levels holding four 11-byte files make 44 bytes. */
  lemma SizeExample(env: Env)
    requires ExampleHost(env)
    ensures IsDirectory(ExampleBuild(env), ["1"])
    ensures TreeSize(Lookup(ExampleBuild(env), ["1"]).value) == 44
  {
    var dm, fm := CreationMode(env, 511), CreationMode(env, FileCreateMode);
    assert Stage(0, dm, fm) == Dir([], 493);
    ExampleStep1(env);
    ExampleStep2(env);
    ExampleStep3(env);
    ExampleStep4(env);
    ExampleStep5(env);
    ExampleStep6(env);
    var fs6 := Stage(6, dm, fm);
    assert ExampleBuild(env) == fs6;
    SizeOfStage6(dm, fm);
    assert Lookup(fs6, ["1"]) == Some(fs6.entries[0].node);
  }
}
