/**
 Path strings. The facade classifies path strings with two pure predicates
 (`isStream`, `isAbsolute`); the filesystem model addresses nodes by their
 sequence of components, and `Render`/`Components` relate the two views.
 */
module Paths {
  import opened Wrappers

  /** One path component: the name of a directory entry. */
  type Name = string

  /** A node address: the components from the filesystem root. */
  type Path = seq<Name>

  /** A name a directory listing can yield (the iterator skips "." and ".."). */
  predicate ValidName(x: Name)
  {
    |x| > 0 && '/' !in x && x != "." && x != ".."
  }

  /** `p` is `q` or one of its ancestors. */
  predicate IsPrefix(p: Path, q: Path)
  {
    |p| <= |q| && q[..|p|] == p
  }

  /** Neither path lies at or below the other. */
  predicate Disjoint(p: Path, q: Path)
  {
    !IsPrefix(p, q) && !IsPrefix(q, p)
  }

  /** A path below `p` is disjoint from everything disjoint from `p`. */
  lemma DisjointExtend(p: Path, s: Path, q: Path)
    requires Disjoint(p, q)
    ensures Disjoint(p + s, q)
  {
    assert (p + s)[..|p|] == p;
  }

  // ---------------------------------------------------------------------
  // Rendering component paths as strings, and splitting them back.
  // ---------------------------------------------------------------------

  /** The absolute path string of a component path: "/a/b/c". */
  function Render(p: Path): string
  {
    if p == [] then "" else Render(p[..|p| - 1]) + "/" + p[|p| - 1]
  }

  /** The path string of a child, built as the source builds copy targets. */
  lemma RenderChild(p: Path, x: Name)
    ensures Render(p + [x]) == Render(p) + "/" + x
  {
    assert (p + [x])[..|p|] == p;
  }

  /** Splits `s` on '/', `cur` being the component read so far; empty components are dropped. */
  function Split(s: string, cur: string): seq<Name>
  {
    if s == [] then (if cur == [] then [] else [cur])
    else if s[0] == '/' then (if cur == [] then [] else [cur]) + Split(s[1..], [])
    else Split(s[1..], cur + [s[0]])
  }

  /** The components of a path string ("a//b/" has components "a" and "b"). */
  function Components(s: string): seq<Name>
  {
    Split(s, [])
  }

  lemma {:induction false} SplitName(x: string, t: string, cur: string)
    requires '/' !in x
    ensures Split(x + t, cur) == Split(t, cur + x)
    decreases |x|
  {
    if x == [] {
      assert x + t == t;
      assert cur + x == cur;
    } else {
      assert (x + t)[0] == x[0];
      assert (x + t)[1..] == x[1..] + t;
      SplitName(x[1..], t, cur + [x[0]]);
      assert cur + [x[0]] + x[1..] == cur + x;
    }
  }

  lemma {:induction false} SplitRender(p: Path, t: string)
    requires forall i :: 0 <= i < |p| ==> ValidName(p[i])
    requires t == [] || t[0] == '/'
    ensures Split(Render(p) + t, []) == p + Split(t, [])
    decreases |p|
  {
    if p == [] {
      assert Render(p) + t == t;
    } else {
      var p', x := p[..|p| - 1], p[|p| - 1];
      assert p == p' + [x];
      var t' := "/" + x + t;
      assert Render(p) + t == Render(p') + t';
      SplitRender(p', t');
      // Split(t', []) == [x] + Split(t, [])
      assert t'[1..] == x + t;
      SplitName(x, t, []);
      assert [] + x == x;
      if t == [] {
        assert Split(t', []) == [x];
      } else {
        assert Split(t, x) == [x] + Split(t[1..], []);
        assert Split(t, []) == Split(t[1..], []);
      }
    }
  }

  /** Rendering and splitting are inverse: distinct component paths render to distinct strings. */
  lemma ComponentsRender(p: Path)
    requires forall i :: 0 <= i < |p| ==> ValidName(p[i])
    ensures Components(Render(p)) == p
  {
    SplitRender(p, []);
    assert Render(p) + [] == Render(p);
  }

  /** Appending "/" and a valid name to a path string appends that name to its components. */
  lemma ComponentsOfChild(p: Path, x: Name)
    requires forall i :: 0 <= i < |p| ==> ValidName(p[i])
    requires ValidName(x)
    ensures Components(Render(p) + "/" + x) == p + [x]
  {
    RenderChild(p, x);
    ComponentsRender(p + [x]);
  }

  // ---------------------------------------------------------------------
  // isStream: strpos($path, '://') !== false
  // ---------------------------------------------------------------------

  /** `n` occurs in `h` starting at index `j`. */
  predicate OccursAt(h: string, n: string, j: int)
  {
    0 <= j && j + |n| <= |h| && h[j..j + |n|] == n
  }

  /** First occurrence of `n` in `h` at or after `i` (strpos with an offset). */
  function StrposFrom(h: string, n: string, i: nat): (r: Option<nat>)
    ensures r.Some? ==> i <= r.value && OccursAt(h, n, r.value)
    ensures r.Some? ==> forall j :: i <= j < r.value ==> !OccursAt(h, n, j)
    ensures r.None? ==> forall j :: i <= j ==> !OccursAt(h, n, j)
    decreases |h| - i
  {
    if i + |n| > |h| then None
    else if h[i..i + |n|] == n then Some(i)
    else StrposFrom(h, n, i + 1)
  }

  /** strpos: the index of the first occurrence of `n` in `h`, if any. */
  function Strpos(h: string, n: string): (r: Option<nat>)
    ensures r.Some? ==> OccursAt(h, n, r.value) && forall j :: 0 <= j < r.value ==> !OccursAt(h, n, j)
    ensures r.None? <==> forall j :: !OccursAt(h, n, j)
  {
    StrposFrom(h, n, 0)
  }

  /** isStream: the path contains "://" somewhere. */
  function IsStream(p: string): (r: bool)
    ensures r <==> exists j :: OccursAt(p, "://", j)
  {
    Strpos(p, "://").Some?
  }

  // ---------------------------------------------------------------------
  // isAbsolute: preg_match('#([a-z]:)?[/\\]|[a-z][a-z0-9+.-]*://#Ai', $path)
  // Anchored at the start (A), ASCII letters matched case-insensitively (i).
  // ---------------------------------------------------------------------

  predicate IsAsciiLetter(c: char)
  {
    'a' <= c <= 'z' || 'A' <= c <= 'Z'
  }

  /** The scheme character class [a-z0-9+.-], case-insensitive. */
  predicate IsSchemeChar(c: char)
  {
    IsAsciiLetter(c) || '0' <= c <= '9' || c == '+' || c == '.' || c == '-'
  }

  /** The separator class [/\\]: a slash or a backslash. */
  predicate IsSeparator(c: char)
  {
    c == '/' || c == '\\'
  }

  /** First alternative without the drive: a leading separator. */
  predicate RootPrefix(p: string)
  {
    |p| >= 1 && IsSeparator(p[0])
  }

  /** First alternative with the drive: a letter, ':', then a separator. */
  predicate DrivePrefix(p: string)
  {
    |p| >= 3 && IsAsciiLetter(p[0]) && p[1] == ':' && IsSeparator(p[2])
  }

  /** Second alternative, with "://" starting at index `k`. */
  predicate SchemeEndsAt(p: string, k: int)
  {
    && 1 <= k
    && k + 3 <= |p|
    && IsAsciiLetter(p[0])
    && (forall i :: 1 <= i < k ==> IsSchemeChar(p[i]))
    && p[k..k + 3] == "://"
  }

  /** Second alternative: a letter, scheme characters, then "://". */
  predicate SchemePrefix(p: string)
  {
    exists k :: 1 <= k < |p| && SchemeEndsAt(p, k)
  }

  /** isAbsolute: one of the anchored alternatives matches a prefix of `p`. */
  predicate IsAbsolute(p: string)
  {
    RootPrefix(p) || DrivePrefix(p) || SchemePrefix(p)
  }

  /** The "://" of a scheme prefix sits exactly where the run of scheme characters after the first letter ends. */
  lemma SchemeEndIsRunEnd(p: string, k: int, i: int)
    requires SchemeEndsAt(p, k)
    requires 1 <= i <= |p|
    requires forall j :: 1 <= j < i ==> IsSchemeChar(p[j])
    requires i == |p| || !IsSchemeChar(p[i])
    ensures k == i
  {
    assert p[k] == ':';
  }

  /** A scanner for the isAbsolute pattern: the first-character tests, then one greedy pass over the scheme run. */
  method MatchAbsolute(p: string) returns (r: bool)
    ensures r <==> IsAbsolute(p)
  {
    if |p| >= 1 && IsSeparator(p[0]) {
      return true;
    }
    if |p| == 0 || !IsAsciiLetter(p[0]) {
      assert !SchemePrefix(p);
      return false;
    }
    if |p| >= 3 && p[1] == ':' && IsSeparator(p[2]) {
      return true;
    }
    var i := 1;
    while i < |p| && IsSchemeChar(p[i])
      invariant 1 <= i <= |p|
      invariant forall j :: 1 <= j < i ==> IsSchemeChar(p[j])
    {
      i := i + 1;
    }
    r := i + 3 <= |p| && p[i..i + 3] == "://";
    if r {
      assert SchemeEndsAt(p, i);
    } else {
      forall k | SchemeEndsAt(p, k)
        ensures false
      {
        SchemeEndIsRunEnd(p, k, i);
      }
    }
  }

  /** The scheme alternative of isAbsolute implies isStream. */
  lemma SchemeIsStream(p: string)
    requires SchemePrefix(p)
    ensures IsStream(p)
  {
    var k :| 1 <= k < |p| && SchemeEndsAt(p, k);
    assert p[k..k + 3] == "://";
    assert OccursAt(p, "://", k);
  }

  /** Only a prefix is examined: whatever follows an absolute path keeps it absolute. */
  lemma AbsoluteIsPrefixClosed(p: string, s: string)
    requires IsAbsolute(p)
    ensures IsAbsolute(p + s)
  {
    if SchemePrefix(p) {
      var k :| 1 <= k < |p| && SchemeEndsAt(p, k);
      assert (p + s)[k..k + 3] == p[k..k + 3];
      assert SchemeEndsAt(p + s, k);
    }
  }

  /** The classifier's test vectors. */
  lemma AbsoluteExamples()
    ensures !IsAbsolute("")
    ensures IsAbsolute("\\") && IsAbsolute("//")
    ensures !IsAbsolute("file")
    ensures !IsAbsolute("dir:/file") && !IsAbsolute("dir:\\file")
    ensures IsAbsolute("c:/file") && IsAbsolute("c:\\file") && IsAbsolute("C:\\file")
    ensures IsAbsolute("http://file") && IsAbsolute("remote://file")
    ensures IsStream("file://1.txt")
  {
    assert SchemeEndsAt("http://file", 4);
    assert SchemeEndsAt("remote://file", 6);
    assert OccursAt("file://1.txt", "://", 4);
    forall k | SchemeEndsAt("file", k) ensures false {
      SchemeEndIsRunEnd("file", k, 4);
    }
    assert "dir:/file"[3..6] != "://" by { assert "dir:/file"[5] == 'f'; }
    assert "dir:\\file"[3..6] != "://" by { assert "dir:\\file"[4] == '\\'; }
    forall k | SchemeEndsAt("dir:/file", k) ensures false {
      SchemeEndIsRunEnd("dir:/file", k, 3);
    }
    forall k | SchemeEndsAt("dir:\\file", k) ensures false {
      SchemeEndIsRunEnd("dir:\\file", k, 3);
    }
  }
}
