/** Positional tokens: dropping the invocation prefix, partitioning on `=`, and `split('=')`. */
module Tokens {

  const Separator: char := '='

  /** `arg.includes('=')`: the token is an explicit `package=file` mapping. */
  predicate IsExplicit(token: string)
  {
    Separator in token
  }

  /** `args._.slice(2)`: the tokens after the two leading invocation tokens. */
  function InputTokens(positional: seq<string>): (ts: seq<string>)
    ensures |ts| == if |positional| <= 2 then 0 else |positional| - 2
    ensures forall i :: 0 <= i < |ts| ==> ts[i] == positional[i + 2]
  {
    if |positional| <= 2 then [] else positional[2..]
  }

  /** The tokens that contain `=`, in order. */
  function Explicit(ts: seq<string>): (es: seq<string>)
    ensures forall e :: e in es ==> IsExplicit(e)
  {
    if ts == [] then []
    else (if IsExplicit(ts[0]) then [ts[0]] else []) + Explicit(ts[1..])
  }

  /** The tokens that contain no `=`, in order: the glob patterns. */
  function Patterns(ts: seq<string>): (ps: seq<string>)
    ensures forall p :: p in ps ==> !IsExplicit(p)
  {
    if ts == [] then []
    else (if IsExplicit(ts[0]) then [] else [ts[0]]) + Patterns(ts[1..])
  }

  /** `s` is an order-preserving merge of `a` and `b`: every element of `s` is taken,
      in turn, from the front of exactly one of them. */
  ghost predicate Interleaving(s: seq<string>, a: seq<string>, b: seq<string>)
    decreases |s|
  {
    if s == [] then a == [] && b == []
    else
      (a != [] && a[0] == s[0] && Interleaving(s[1..], a[1..], b)) ||
      (b != [] && b[0] == s[0] && Interleaving(s[1..], a, b[1..]))
  }

  /** The two groups are an order-preserving split of the tokens. */
  lemma {:induction false} PartitionInterleaves(ts: seq<string>)
    ensures Interleaving(ts, Explicit(ts), Patterns(ts))
  {
    if ts != [] {
      PartitionInterleaves(ts[1..]);
      if IsExplicit(ts[0]) {
        assert Explicit(ts)[1..] == Explicit(ts[1..]);
        assert Patterns(ts) == Patterns(ts[1..]);
      } else {
        assert Patterns(ts)[1..] == Patterns(ts[1..]);
        assert Explicit(ts) == Explicit(ts[1..]);
      }
    }
  }

  /** The split is the only one: any order-preserving split of the tokens into a group
      with `=` and a group without is exactly (`Explicit`, `Patterns`). */
  lemma {:induction false} PartitionUnique(ts: seq<string>, a: seq<string>, b: seq<string>)
    requires Interleaving(ts, a, b)
    requires forall e :: e in a ==> IsExplicit(e)
    requires forall p :: p in b ==> !IsExplicit(p)
    ensures a == Explicit(ts) && b == Patterns(ts)
  {
    if ts != [] {
      if a != [] && a[0] == ts[0] && Interleaving(ts[1..], a[1..], b) {
        assert a[0] in a;
        forall e | e in a[1..] ensures IsExplicit(e) { assert e in a; }
        PartitionUnique(ts[1..], a[1..], b);
        assert a == [a[0]] + a[1..];
      } else {
        assert b[0] in b;
        forall p | p in b[1..] ensures !IsExplicit(p) { assert p in b; }
        PartitionUnique(ts[1..], a, b[1..]);
        assert b == [b[0]] + b[1..];
      }
    }
  }

  /** An interleaving keeps every element exactly once. */
  lemma {:induction false} InterleavingKeepsAll(s: seq<string>, a: seq<string>, b: seq<string>)
    requires Interleaving(s, a, b)
    ensures |a| + |b| == |s|
    ensures multiset(a) + multiset(b) == multiset(s)
  {
    if s != [] {
      assert s == [s[0]] + s[1..];
      if a != [] && a[0] == s[0] && Interleaving(s[1..], a[1..], b) {
        InterleavingKeepsAll(s[1..], a[1..], b);
        assert a == [a[0]] + a[1..];
      } else {
        InterleavingKeepsAll(s[1..], a, b[1..]);
        assert b == [b[0]] + b[1..];
      }
    }
  }

  /** Every token lands in exactly one group: the group sizes add up to the token count,
      the two groups together hold each token as often as the input does, and a token
      is in the explicit group if and only if it contains `=`. */
  lemma PartitionIsExact(ts: seq<string>, t: string)
    ensures |Explicit(ts)| + |Patterns(ts)| == |ts|
    ensures multiset(Explicit(ts)) + multiset(Patterns(ts)) == multiset(ts)
    ensures t in ts ==> ((t in Explicit(ts) <==> IsExplicit(t)) && (t in Patterns(ts) <==> !IsExplicit(t)))
  {
    PartitionInterleaves(ts);
    InterleavingKeepsAll(ts, Explicit(ts), Patterns(ts));
    if t in ts {
      assert t in multiset(ts);
    }
  }

  /** One token in front of the rest contributes to exactly one group. */
  lemma PartitionCons(t: string, rest: seq<string>)
    ensures Explicit([t] + rest) == (if IsExplicit(t) then [t] else []) + Explicit(rest)
    ensures Patterns([t] + rest) == (if IsExplicit(t) then [] else [t]) + Patterns(rest)
  {
    assert ([t] + rest)[0] == t && ([t] + rest)[1..] == rest;
  }

  lemma {:induction false} ExplicitAppend(a: seq<string>, b: seq<string>)
    ensures Explicit(a + b) == Explicit(a) + Explicit(b)
  {
    if a == [] {
      assert a + b == b;
    } else {
      var t, rest := a[0], a[1..];
      assert a == [t] + rest;
      assert a + b == [t] + (rest + b);
      ExplicitAppend(rest, b);
      PartitionCons(t, rest);
      PartitionCons(t, rest + b);
      var e := if IsExplicit(t) then [t] else [];
      assert e + (Explicit(rest) + Explicit(b)) == (e + Explicit(rest)) + Explicit(b);
    }
  }

  lemma {:induction false} PatternsAppend(a: seq<string>, b: seq<string>)
    ensures Patterns(a + b) == Patterns(a) + Patterns(b)
  {
    if a == [] {
      assert a + b == b;
    } else {
      var t, rest := a[0], a[1..];
      assert a == [t] + rest;
      assert a + b == [t] + (rest + b);
      PatternsAppend(rest, b);
      PartitionCons(t, rest);
      PartitionCons(t, rest + b);
      var q := if IsExplicit(t) then [] else [t];
      assert q + (Patterns(rest) + Patterns(b)) == (q + Patterns(rest)) + Patterns(b);
    }
  }

  /** The two groups together are as long as the tokens after the invocation prefix. */
  lemma GroupSizes(positional: seq<string>)
    ensures |Explicit(InputTokens(positional))| + |Patterns(InputTokens(positional))| ==
      if |positional| <= 2 then 0 else |positional| - 2
  {
    PartitionIsExact(InputTokens(positional), "");
  }

  /** The groups of a concatenation are the concatenations of the groups. */
  lemma PartitionAppend(a: seq<string>, b: seq<string>)
    ensures Explicit(a + b) == Explicit(a) + Explicit(b)
    ensures Patterns(a + b) == Patterns(a) + Patterns(b)
  {
    ExplicitAppend(a, b);
    PatternsAppend(a, b);
  }

  lemma PartitionOne(t: string)
    ensures Explicit([t]) == (if IsExplicit(t) then [t] else [])
    ensures Patterns([t]) == (if IsExplicit(t) then [] else [t])
  {
    assert [t][1..] == [];
  }

  lemma PartitionAround(before: seq<string>, mid: seq<string>, after: seq<string>)
    ensures Explicit(before + mid + after) == Explicit(before) + Explicit(mid) + Explicit(after)
    ensures Patterns(before + mid + after) == Patterns(before) + Patterns(mid) + Patterns(after)
  {
    PartitionAppend(before + mid, after);
    PartitionAppend(before, mid);
  }

  lemma PartitionPair(x: string, y: string)
    requires IsExplicit(x) && !IsExplicit(y)
    ensures Explicit([x, y]) == [x] == Explicit([y, x])
    ensures Patterns([x, y]) == [y] == Patterns([y, x])
  {
    assert Explicit([x]) == [x] && Patterns([x]) == [] by { assert [x][1..] == []; }
    assert Explicit([y]) == [] && Patterns([y]) == [y] by { assert [y][1..] == []; }
    assert [x, y][1..] == [y] && [y, x][1..] == [x];
    assert Explicit([x, y]) == [x] + Explicit([y]);
    assert Explicit([y, x]) == [] + Explicit([x]);
    assert Patterns([x, y]) == [] + Patterns([y]);
    assert Patterns([y, x]) == [y] + Patterns([x]);
  }

  /** Only the relative order within a group matters: swapping an explicit token with an
      adjacent pattern token changes neither group. */
  lemma SwapAcrossGroups(before: seq<string>, x: string, y: string, after: seq<string>)
    requires IsExplicit(x) && !IsExplicit(y)
    ensures Explicit(before + [x, y] + after) == Explicit(before + [y, x] + after)
    ensures Patterns(before + [x, y] + after) == Patterns(before + [y, x] + after)
  {
    PartitionAround(before, [x, y], after);
    PartitionAround(before, [y, x], after);
    PartitionPair(x, y);
  }

  /** A list of explicit tokens is its own explicit group and has no patterns. */
  lemma {:induction false} AllExplicitKept(ts: seq<string>)
    requires forall t :: t in ts ==> IsExplicit(t)
    ensures Explicit(ts) == ts && Patterns(ts) == []
  {
    if ts != [] {
      assert ts[0] in ts;
      forall t | t in ts[1..] ensures IsExplicit(t) { assert t in ts; }
      AllExplicitKept(ts[1..]);
      assert ts == [ts[0]] + ts[1..];
    }
  }

  /** Index of the first `c` in `s`, or `|s|` when there is none (`indexOf` with -1 read as `|s|`). */
  function IndexOf(s: string, c: char): (i: nat)
    ensures i <= |s|
    ensures c !in s[..i]
    ensures i < |s| <==> c in s
    ensures i < |s| ==> s[i] == c
  {
    if s == [] then 0
    else if s[0] == c then 0
    else
      assert s[1..][..IndexOf(s[1..], c)] == s[1..1 + IndexOf(s[1..], c)];
      1 + IndexOf(s[1..], c)
  }

  /** `s.split(c)`: the maximal `c`-free segments of `s`, in order. */
  function Split(s: string, c: char): (parts: seq<string>)
    ensures |parts| >= 1
    ensures forall k :: 0 <= k < |parts| ==> c !in parts[k]
    decreases |s|
  {
    var i := IndexOf(s, c);
    if i == |s| then [s] else [s[..i]] + Split(s[i + 1..], c)
  }

  /** `parts.join(c)`. */
  function Join(parts: seq<string>, c: char): string
  {
    if parts == [] then ""
    else if |parts| == 1 then parts[0]
    else parts[0] + [c] + Join(parts[1..], c)
  }

  /** Number of occurrences of `c` in `s`. */
  function Count(s: string, c: char): nat
  {
    if s == [] then 0 else (if s[0] == c then 1 else 0) + Count(s[1..], c)
  }

  lemma {:induction false} CountAppend(a: string, b: string, c: char)
    ensures Count(a + b, c) == Count(a, c) + Count(b, c)
  {
    if a != [] {
      assert (a + b)[0] == a[0];
      assert (a + b)[1..] == a[1..] + b;
      CountAppend(a[1..], b, c);
    } else {
      assert a + b == b;
    }
  }

  lemma {:induction false} CountAbsent(s: string, c: char)
    requires c !in s
    ensures Count(s, c) == 0
  {
    if s != [] {
      assert c !in s[1..] by { forall x | x in s[1..] ensures x != c { assert x in s; } }
      CountAbsent(s[1..], c);
    }
  }

  /** Splitting loses nothing: joining the parts back with the separator gives the string. */
  lemma {:induction false} SplitJoin(s: string, c: char)
    ensures Join(Split(s, c), c) == s
    decreases |s|
  {
    var i := IndexOf(s, c);
    if i == |s| {
      assert s[..i] == s;
    } else {
      var rest := s[i + 1..];
      var tail := Split(rest, c);
      SplitJoin(rest, c);
      var parts := [s[..i]] + tail;
      assert Join(parts, c) == s[..i] + [c] + Join(tail, c);
      assert s == s[..i] + [c] + rest;
    }
  }

  /** There is one more part than there are separators. */
  lemma {:induction false} SplitCount(s: string, c: char)
    ensures |Split(s, c)| == Count(s, c) + 1
    decreases |s|
  {
    var i := IndexOf(s, c);
    if i == |s| {
      assert s[..i] == s;
      CountAbsent(s, c);
    } else {
      SplitCount(s[i + 1..], c);
      assert s == s[..i] + ([c] + s[i + 1..]);
      CountAppend(s[..i], [c] + s[i + 1..], c);
      CountAppend([c], s[i + 1..], c);
      assert Count([c], c) == 1 + Count([], c);
      CountAbsent(s[..i], c);
    }
  }

  /** The package and file an explicit token names. */
  datatype Mapping = Mapping(packageName: string, fileName: string)

  /** `parts = token.split('=')`, package `parts[0]`, file `parts[1]`: the package is the text
      before the first `=`, and the file the text from there up to the second `=` (or to the
      end when there is no second one). Neither contains `=`. */
  function ExplicitMapping(token: string): (m: Mapping)
    requires IsExplicit(token)
    ensures Separator !in m.packageName && Separator !in m.fileName
    ensures |m.packageName| < |token| && token[..|m.packageName|] == m.packageName
    ensures token[|m.packageName|] == Separator
    ensures var rest := token[|m.packageName| + 1..];
      |m.fileName| <= |rest| && rest[..|m.fileName|] == m.fileName &&
      (|m.fileName| == |rest| || rest[|m.fileName|] == Separator)
  {
    var parts := Split(token, Separator);
    var rest := token[IndexOf(token, Separator) + 1..];
    assert parts[1] == Split(rest, Separator)[0];
    assert rest[..|rest|] == rest;
    Mapping(parts[0], parts[1])
  }

  /** The package of an explicit token is exactly its prefix before the first `=`. */
  lemma PackageBeforeFirstSeparator(token: string)
    requires IsExplicit(token)
    ensures ExplicitMapping(token).packageName == token[..IndexOf(token, Separator)]
  {
    var pkg, i := ExplicitMapping(token).packageName, IndexOf(token, Separator);
    assert forall k :: 0 <= k < i ==> token[k] in token[..i];
    assert forall k :: 0 <= k < |pkg| ==> token[k] in pkg;
    assert |pkg| == i;
  }

  /** Those properties pin the mapping down: any package and file that split the token
      the same way are the ones `ExplicitMapping` returns. */
  lemma MappingIsDetermined(token: string, pkg: string, file: string, tail: string)
    requires Separator !in pkg && Separator !in file
    requires token == pkg + [Separator] + file + tail
    requires tail == [] || tail[0] == Separator
    ensures ExplicitMapping(token) == Mapping(pkg, file)
  {
    var m := ExplicitMapping(token);
    var rest := token[|pkg| + 1..];
    assert rest == file + tail;
    assert forall k :: 0 <= k < |pkg| ==> token[k] == pkg[k] && token[k] != Separator;
    assert forall k :: 0 <= k < |m.packageName| ==> token[k] == m.packageName[k] && token[k] != Separator;
    assert token[|pkg|] == Separator;
    assert |m.packageName| == |pkg|;
    assert token[..|pkg|] == pkg;
    assert m.packageName == pkg;
    assert forall k :: 0 <= k < |file| ==> rest[k] == file[k] && rest[k] != Separator;
    assert forall k :: 0 <= k < |m.fileName| ==> rest[k] == m.fileName[k] && rest[k] != Separator;
    assert tail != [] ==> rest[|file|] == Separator;
    assert |m.fileName| == |file|;
    assert rest[..|file|] == file;
  }

  /** A token with two separators keeps only the middle segment as its file. */
  lemma DoubleSeparatorKeepsMiddle()
    ensures ExplicitMapping("a=b=c") == Mapping("a", "b")
  {
    MappingIsDetermined("a=b=c", "a", "b", "=c");
  }
}
