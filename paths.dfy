/** POSIX `path.dirname` and `path.basename` over `/`-separated paths, and the package
    name a pattern-matched file gets: the name of the directory that holds it. */
module Paths {
  import opened Wrappers

  const PathSeparator: char := '/'

  /** Index of the last `c` in `s`, if any. */
  function LastIndexOf(s: string, c: char): (r: Option<nat>)
    ensures r.None? <==> c !in s
    ensures r.Some? ==> r.value < |s| && s[r.value] == c && c !in s[r.value + 1..]
  {
    if s == [] then None
    else if s[|s| - 1] == c then Some(|s| - 1)
    else
      var r := LastIndexOf(s[..|s| - 1], c);
      assert r.Some? ==> s[r.value + 1..] == s[..|s| - 1][r.value + 1..] + [s[|s| - 1]];
      assert s == s[..|s| - 1] + [s[|s| - 1]];
      r
  }

  /** Any separator with no separator after it is the last one. */
  lemma LastIndexAt(s: string, c: char, i: nat)
    requires i < |s| && s[i] == c && c !in s[i + 1..]
    ensures LastIndexOf(s, c) == Some(i)
  {
    var r := LastIndexOf(s, c);
    assert s[i] in s;
    var j := r.value;
    assert forall k :: i < k < |s| ==> s[k] in s[i + 1..];
    assert forall k :: j < k < |s| ==> s[k] in s[j + 1..];
  }

  /** `path.dirname`: everything before the last separator, `/` when that is the leading
      one, `.` when there is none. */
  function Dirname(p: string): (d: string)
    ensures PathSeparator !in p ==> d == "."
    ensures d != "." && d != "/" ==>
      |d| < |p| && p[..|d|] == d && p[|d|] == PathSeparator && PathSeparator !in p[|d| + 1..]
  {
    match LastIndexOf(p, PathSeparator)
    case None => "."
    case Some(i) => if i == 0 then "/" else p[..i]
  }

  /** `path.basename`: everything after the last separator; it never contains one. */
  function Basename(p: string): (b: string)
    ensures PathSeparator !in b
  {
    match LastIndexOf(p, PathSeparator)
    case None => p
    case Some(i) => p[i + 1..]
  }

  /** `path.basename(path.dirname(p))`: the package name of a pattern-matched file. */
  function ParentName(p: string): (n: string)
    ensures PathSeparator !in n
  {
    Basename(Dirname(p))
  }

  /** Directory and base name put back together give the path, whenever the path has a
      separator that is not its first character. */
  lemma DirnameBasenameJoin(p: string)
    requires LastIndexOf(p, PathSeparator).Some? && LastIndexOf(p, PathSeparator).value > 0
    ensures Dirname(p) + [PathSeparator] + Basename(p) == p
  {
    var i := LastIndexOf(p, PathSeparator).value;
    var d, b := Dirname(p), Basename(p);
    assert d == p[..i];
    assert b == p[i + 1..];
    JoinAround(p, i);
  }

  lemma JoinAround(p: string, i: nat)
    requires i < |p|
    ensures p[..i] + [p[i]] + p[i + 1..] == p
  {
    assert [p[i]] + p[i + 1..] == p[i..];
    assert p[..i] + p[i..] == p;
  }

  /** The package name of `q + c + "/" + f`, where `c` and `f` are single path components
      and `q` is empty or ends in a separator, is `c`: the immediate parent directory. */
  lemma ParentNameOf(q: string, c: string, f: string)
    requires c != [] && f != [] && PathSeparator !in c && PathSeparator !in f
    requires q == [] || q[|q| - 1] == PathSeparator
    ensures ParentName(q + c + [PathSeparator] + f) == c
  {
    var p := q + c + [PathSeparator] + f;
    var i := |q| + |c|;
    assert p[i + 1..] == f;
    LastIndexAt(p, PathSeparator, i);
    if i > 0 {
      var d := p[..i];
      assert d == q + c;
      if q == [] {
        assert PathSeparator !in d;
      } else {
        assert d[|q| - 1] == PathSeparator;
        assert d[|q|..] == c;
        LastIndexAt(d, PathSeparator, |q| - 1);
      }
    }
  }

  /** A bare file name has `.` as its package name. */
  lemma ParentNameOfBareFile(p: string)
    requires PathSeparator !in p
    ensures ParentName(p) == "."
  {
    assert LastIndexOf(".", PathSeparator) == None;
  }

  /** The parent directory of `coverage/a/cov.xml` is `a`. */
  lemma ParentNameExample()
    ensures ParentName("coverage/a/cov.xml") == "a"
  {
    var p := "coverage/a/cov.xml";
    assert p[11..] == "cov.xml";
    LastIndexAt(p, PathSeparator, 10);
    assert Dirname(p) == "coverage/a";
    assert "coverage/a"[9..] == "a";
    LastIndexAt("coverage/a", PathSeparator, 8);
  }
}
