/** `expandGlobs`: each pattern's matches, concatenated in pattern order, with a warning
    for every pattern that matches nothing. The matcher itself is a parameter. */
module Globs {

  /** The concatenation, in pattern order, of every pattern's match list. */
  function Expansion(patterns: seq<string>, glob: string -> seq<string>): seq<string>
    decreases |patterns|
  {
    if patterns == [] then []
    else Expansion(patterns[..|patterns| - 1], glob) + glob(patterns[|patterns| - 1])
  }

  /** The patterns, in order, that match nothing: the ones a warning is printed for. */
  function EmptyPatterns(patterns: seq<string>, glob: string -> seq<string>): seq<string>
    decreases |patterns|
  {
    if patterns == [] then []
    else
      var last := patterns[|patterns| - 1];
      EmptyPatterns(patterns[..|patterns| - 1], glob) + (if glob(last) == [] then [last] else [])
  }

  /** Total number of matches over all patterns. */
  function MatchCount(patterns: seq<string>, glob: string -> seq<string>): nat
    decreases |patterns|
  {
    if patterns == [] then 0
    else MatchCount(patterns[..|patterns| - 1], glob) + |glob(patterns[|patterns| - 1])|
  }

  /** Runs the patterns one by one, appending each one's matches to the result and logging
      the patterns that match nothing. */
  method ExpandGlobs(patterns: seq<string>, glob: string -> seq<string>)
    returns (result: seq<string>, warnings: seq<string>)
    ensures result == Expansion(patterns, glob)
    ensures warnings == EmptyPatterns(patterns, glob)
  {
    result, warnings := [], [];
    for i := 0 to |patterns|
      invariant result == Expansion(patterns[..i], glob)
      invariant warnings == EmptyPatterns(patterns[..i], glob)
    {
      var files := glob(patterns[i]);
      if |files| == 0 {
        warnings := warnings + [patterns[i]];
      }
      result := result + files;
      assert patterns[..i + 1][..i] == patterns[..i];
    }
    assert patterns[..|patterns|] == patterns;
  }

  /** Expanding two pattern lists one after the other is expanding their concatenation. */
  lemma {:induction false} ExpansionAppend(a: seq<string>, b: seq<string>, glob: string -> seq<string>)
    ensures Expansion(a + b, glob) == Expansion(a, glob) + Expansion(b, glob)
    decreases |b|
  {
    if b == [] {
      assert a + b == a;
    } else {
      var b' := b[..|b| - 1];
      ExpansionAppend(a, b', glob);
      assert (a + b)[..|a + b| - 1] == a + b';
    }
  }

  lemma ExpansionSnoc(a: seq<string>, x: string, glob: string -> seq<string>)
    ensures Expansion(a + [x], glob) == Expansion(a, glob) + glob(x)
  {
    assert (a + [x])[..|a|] == a;
  }

  /** A pattern's matches sit, unaltered and in their own order, between the matches of the
      patterns before it and those of the patterns after it. */
  lemma PatternOrder(before: seq<string>, p: string, after: seq<string>, glob: string -> seq<string>)
    ensures Expansion(before + [p] + after, glob) == Expansion(before, glob) + glob(p) + Expansion(after, glob)
  {
    ExpansionAppend(before + [p], after, glob);
    ExpansionSnoc(before, p, glob);
  }

  /** The expansion has exactly as many entries as there are matches in all: nothing is
      deduplicated or dropped. */
  lemma {:induction false} ExpansionLength(patterns: seq<string>, glob: string -> seq<string>)
    ensures |Expansion(patterns, glob)| == MatchCount(patterns, glob)
    decreases |patterns|
  {
    if patterns != [] {
      ExpansionLength(patterns[..|patterns| - 1], glob);
    }
  }

  /** A path is in the expansion if and only if some pattern matches it. */
  lemma {:induction false} ExpansionMembership(patterns: seq<string>, glob: string -> seq<string>, path: string)
    ensures path in Expansion(patterns, glob) <==> exists i :: 0 <= i < |patterns| && path in glob(patterns[i])
    decreases |patterns|
  {
    if patterns != [] {
      var init := patterns[..|patterns| - 1];
      ExpansionMembership(init, glob, path);
      if path in Expansion(init, glob) {
        var i :| 0 <= i < |init| && path in glob(init[i]);
        assert patterns[i] == init[i];
      }
      if exists i :: 0 <= i < |patterns| && path in glob(patterns[i]) {
        var i :| 0 <= i < |patterns| && path in glob(patterns[i]);
        if i < |init| {
          assert init[i] == patterns[i];
        }
      }
    }
  }

  /** A pattern with no matches contributes nothing: dropping it leaves the expansion as it was. */
  lemma EmptyPatternContributesNothing(before: seq<string>, p: string, after: seq<string>, glob: string -> seq<string>)
    requires glob(p) == []
    ensures Expansion(before + [p] + after, glob) == Expansion(before + after, glob)
  {
    PatternOrder(before, p, after, glob);
    ExpansionAppend(before, after, glob);
  }

  /** Exactly the patterns with no matches are warned about. */
  lemma {:induction false} WarnedIffEmpty(patterns: seq<string>, glob: string -> seq<string>, p: string)
    ensures p in EmptyPatterns(patterns, glob) <==> p in patterns && glob(p) == []
    decreases |patterns|
  {
    if patterns != [] {
      var init := patterns[..|patterns| - 1];
      WarnedIffEmpty(init, glob, p);
      assert patterns == init + [patterns[|patterns| - 1]];
    }
  }
}
