/** `getInputDataFromArgs`: the tagged, parsed documents the merger works on, explicit
    mappings first and pattern-matched files after, or the first file that cannot be read. */
module Input {
  import opened Wrappers
  import opened Arguments
  import opened Tokens
  import opened Paths
  import opened Globs

  /** One parsed document with the package it is merged under. */
  datatype InputData<D> = InputData(packageName: string, fileName: string, data: D)

  /** A file that could not be read or parsed; the process stops when it meets one. */
  datatype InputError = UnreadableFile(fileName: string)

  /** The package and file of each explicit token, in order. */
  function ExplicitTargets(mappings: seq<string>): (ts: seq<Mapping>)
    requires forall m :: m in mappings ==> IsExplicit(m)
    ensures |ts| == |mappings|
    ensures forall i :: 0 <= i < |ts| ==> ts[i] == ExplicitMapping(mappings[i])
  {
    seq(|mappings|, i requires 0 <= i < |mappings| => ExplicitMapping(mappings[i]))
  }

  /** Each pattern-matched path, with the name of its parent directory as its package. */
  function PatternTargets(paths: seq<string>): (ts: seq<Mapping>)
    ensures |ts| == |paths|
    ensures forall i :: 0 <= i < |ts| ==>
      ts[i].fileName == paths[i] && ts[i].packageName == ParentName(paths[i]) && PathSeparator !in ts[i].packageName
  {
    seq(|paths|, i requires 0 <= i < |paths| => Mapping(ParentName(paths[i]), paths[i]))
  }

  /** `rec` is the record made for `t`: same package and file, and the document read from it. */
  ghost predicate IsRecordOf<D>(rec: InputData<D>, t: Mapping, load: string -> Option<D>)
  {
    rec.packageName == t.packageName && rec.fileName == t.fileName && load(t.fileName) == Some(rec.data)
  }

  /** Every target's file can be read. */
  ghost predicate AllReadable<D>(targets: seq<Mapping>, load: string -> Option<D>)
  {
    forall i :: 0 <= i < |targets| ==> load(targets[i].fileName).Some?
  }

  /** Target `i` is the first whose file cannot be read. */
  ghost predicate FirstUnreadable<D>(targets: seq<Mapping>, load: string -> Option<D>, i: int)
  {
    0 <= i < |targets| && load(targets[i].fileName).None? &&
    forall j :: 0 <= j < i ==> load(targets[j].fileName).Some?
  }

  /** Reads and parses each target in turn, stopping at the first failure: either every file
      is read, giving one record per target in order, or the first unreadable file is reported
      and no record at all is returned. */
  function LoadAll<D>(targets: seq<Mapping>, load: string -> Option<D>): (r: Result<seq<InputData<D>>, InputError>)
    ensures r.Success? <==> AllReadable(targets, load)
    ensures r.Success? ==>
      |r.value| == |targets| && forall i :: 0 <= i < |targets| ==> IsRecordOf(r.value[i], targets[i], load)
    ensures r.Failure? ==>
      exists i :: FirstUnreadable(targets, load, i) && r.error == UnreadableFile(targets[i].fileName)
  {
    if targets == [] then Success([])
    else
      match load(targets[0].fileName)
      case None =>
        assert FirstUnreadable(targets, load, 0);
        Failure(UnreadableFile(targets[0].fileName))
      case Some(d) =>
        var rest := LoadAll(targets[1..], load);
        if rest.Failure? then
          assert exists i :: FirstUnreadable(targets[1..], load, i) && rest.error == UnreadableFile(targets[1..][i].fileName);
          assert forall i :: FirstUnreadable(targets[1..], load, i) ==> FirstUnreadable(targets, load, i + 1);
          Failure(rest.error)
        else
          Success([InputData(targets[0].packageName, targets[0].fileName, d)] + rest.value)
  }

  /** Loading two target lists one after the other is loading their concatenation. */
  lemma {:induction false} LoadAllAppend<D>(a: seq<Mapping>, b: seq<Mapping>, load: string -> Option<D>)
    ensures LoadAll(a + b, load) ==
      match LoadAll(a, load)
      case Failure(e) => Failure(e)
      case Success(ra) =>
        match LoadAll(b, load)
        case Failure(e) => Failure(e)
        case Success(rb) => Success(ra + rb)
  {
    if a == [] {
      assert a + b == b;
      assert LoadAll(b, load).Success? ==> [] + LoadAll(b, load).value == LoadAll(b, load).value;
    } else {
      var a' := a[1..];
      assert (a + b)[0] == a[0] && (a + b)[1..] == a' + b;
      LoadAllAppend(a', b, load);
      match load(a[0].fileName)
      case None =>
      case Some(d) =>
        var head := [InputData(a[0].packageName, a[0].fileName, d)];
        match LoadAll(a', load)
        case Failure(_) =>
        case Success(ra) =>
          match LoadAll(b, load)
          case Failure(_) =>
          case Success(rb) =>
            assert head + (ra + rb) == (head + ra) + rb;
    }
  }

  /** Every file the invocation asks for, in the order it is read: explicit mappings in token
      order, then the pattern matches in expansion order. */
  function AllTargets(args: ParsedArgs, glob: string -> seq<string>): (targets: seq<Mapping>)
    ensures var tokens := InputTokens(args.positional);
      |targets| == |Explicit(tokens)| + |Expansion(Patterns(tokens), glob)|
  {
    var tokens := InputTokens(args.positional);
    ExplicitTargets(Explicit(tokens)) + PatternTargets(Expansion(Patterns(tokens), glob))
  }

  /** An element of `a + b` is an element of `a` or, shifted by `|a|`, of `b`. */
  lemma ConcatAt<T>(a: seq<T>, b: seq<T>)
    ensures |a + b| == |a| + |b|
    ensures forall i :: 0 <= i < |a| ==> (a + b)[i] == a[i]
    ensures forall j :: 0 <= j < |b| ==> (a + b)[|a| + j] == b[j]
  {
  }

  /** `targets` is the mapping of each explicit token of `es`, in order, followed by each path
      of `xs`, in order, tagged with its parent directory's name. */
  ghost predicate TargetsInOrder(targets: seq<Mapping>, es: seq<string>, xs: seq<string>)
    requires forall m :: m in es ==> IsExplicit(m)
  {
    |targets| == |es| + |xs| &&
    (forall i :: 0 <= i < |es| ==> targets[i] == ExplicitMapping(es[i])) &&
    (forall j :: 0 <= j < |xs| ==> targets[|es| + j] == Mapping(ParentName(xs[j]), xs[j]))
  }

  /** The targets are the explicit mappings, in token order, followed by the expanded paths,
      in expansion order, each tagged with its parent directory's name. */
  lemma AllTargetsShape(args: ParsedArgs, glob: string -> seq<string>)
    ensures var tokens := InputTokens(args.positional);
      TargetsInOrder(AllTargets(args, glob), Explicit(tokens), Expansion(Patterns(tokens), glob))
  {
    var tokens := InputTokens(args.positional);
    var es, xs := Explicit(tokens), Expansion(Patterns(tokens), glob);
    TargetsConcat(ExplicitTargets(es), PatternTargets(xs), es, xs);
  }

  lemma TargetsConcat(et: seq<Mapping>, pt: seq<Mapping>, es: seq<string>, xs: seq<string>)
    requires forall m :: m in es ==> IsExplicit(m)
    requires |et| == |es| && forall i :: 0 <= i < |et| ==> et[i] == ExplicitMapping(es[i])
    requires |pt| == |xs| && forall j :: 0 <= j < |pt| ==> pt[j].fileName == xs[j] && pt[j].packageName == ParentName(xs[j])
    ensures TargetsInOrder(et + pt, es, xs)
  {
    ConcatAt(et, pt);
    forall j | 0 <= j < |xs| ensures (et + pt)[|es| + j] == Mapping(ParentName(xs[j]), xs[j]) {
      assert (et + pt)[|es| + j] == pt[j];
    }
  }

  /** The outcome of `getInputDataFromArgs`: the explicit mappings' records, then the
      pattern matches' records, or the error that stopped the run. */
  function Resolve<D>(args: ParsedArgs, glob: string -> seq<string>, load: string -> Option<D>)
    : (r: Result<seq<InputData<D>>, InputError>)
    ensures r.Success? ==> var tokens := InputTokens(args.positional);
      |r.value| == |Explicit(tokens)| + |Expansion(Patterns(tokens), glob)|
    ensures r.Failure? ==> load(r.error.fileName).None?
  {
    var tokens := InputTokens(args.positional);
    var explicitInputs := LoadAll(ExplicitTargets(Explicit(tokens)), load);
    if explicitInputs.Failure? then Failure(explicitInputs.error)
    else
      var implicitInputs := LoadAll(PatternTargets(Expansion(Patterns(tokens), glob)), load);
      if implicitInputs.Failure? then Failure(implicitInputs.error)
      else Success(explicitInputs.value + implicitInputs.value)
  }

  /** Reading the explicit files and then the pattern-matched ones, stopping at the first
      failure, is one pass over all targets in order. */
  lemma ResolveIsOnePass<D>(args: ParsedArgs, glob: string -> seq<string>, load: string -> Option<D>)
    ensures Resolve(args, glob, load) == LoadAll(AllTargets(args, glob), load)
  {
    var tokens := InputTokens(args.positional);
    LoadAllAppend(ExplicitTargets(Explicit(tokens)), PatternTargets(Expansion(Patterns(tokens), glob)), load);
  }

  /** Every explicit token's file can be read. */
  ghost predicate MappedFilesReadable<D>(es: seq<string>, load: string -> Option<D>)
    requires forall m :: m in es ==> IsExplicit(m)
  {
    forall i :: 0 <= i < |es| ==> load(ExplicitMapping(es[i]).fileName).Some?
  }

  /** Every expanded path can be read. */
  ghost predicate PathsReadable<D>(xs: seq<string>, load: string -> Option<D>)
  {
    forall j :: 0 <= j < |xs| ==> load(xs[j]).Some?
  }

  lemma ExplicitReadable<D>(es: seq<string>, load: string -> Option<D>)
    requires forall m :: m in es ==> IsExplicit(m)
    ensures AllReadable(ExplicitTargets(es), load) <==> MappedFilesReadable(es, load)
  {
    var et := ExplicitTargets(es);
    assert forall i :: 0 <= i < |es| ==> et[i] == ExplicitMapping(es[i]);
  }

  lemma PatternReadable<D>(xs: seq<string>, load: string -> Option<D>)
    ensures AllReadable(PatternTargets(xs), load) <==> PathsReadable(xs, load)
  {
    var pt := PatternTargets(xs);
    assert forall j :: 0 <= j < |xs| ==> pt[j].fileName == xs[j];
  }

  /** Fail-fast: the invocation succeeds exactly when every explicit mapping's file and
      every expanded path can be read; otherwise only the error comes back, and no record
      of any file read before the failure. */
  lemma ResolveSucceedsIff<D>(args: ParsedArgs, glob: string -> seq<string>, load: string -> Option<D>)
    ensures var tokens := InputTokens(args.positional);
      Resolve(args, glob, load).Success? <==>
        MappedFilesReadable(Explicit(tokens), load) && PathsReadable(Expansion(Patterns(tokens), glob), load)
  {
    var tokens := InputTokens(args.positional);
    ExplicitReadable(Explicit(tokens), load);
    PatternReadable(Expansion(Patterns(tokens), glob), load);
  }

  /** `recs` is, for each explicit token of `es` in order, the record of its mapping, followed
      by, for each path of `xs` in order, the record of that path tagged with its parent
      directory's name. */
  ghost predicate RecordsInOrder<D>(recs: seq<InputData<D>>, es: seq<string>, xs: seq<string>, load: string -> Option<D>)
    requires forall m :: m in es ==> IsExplicit(m)
  {
    |recs| == |es| + |xs| &&
    (forall i :: 0 <= i < |es| ==> IsRecordOf(recs[i], ExplicitMapping(es[i]), load)) &&
    (forall j :: 0 <= j < |xs| ==> IsRecordOf(recs[|es| + j], Mapping(ParentName(xs[j]), xs[j]), load))
  }

  /** On success: one record per explicit token, in token order, with the package before the
      first `=` and the file after it; then one record per expanded path, in expansion order,
      with the path as file and its parent directory's name as package; each holding the
      document read from its file. So every explicit record precedes every pattern record. */
  lemma ResolveRecords<D>(args: ParsedArgs, glob: string -> seq<string>, load: string -> Option<D>)
    requires Resolve(args, glob, load).Success?
    ensures var tokens := InputTokens(args.positional);
      RecordsInOrder(Resolve(args, glob, load).value, Explicit(tokens), Expansion(Patterns(tokens), glob), load)
  {
    var tokens := InputTokens(args.positional);
    var es, xs := Explicit(tokens), Expansion(Patterns(tokens), glob);
    var et, pt := ExplicitTargets(es), PatternTargets(xs);
    ExplicitRecordsOf(es, load);
    PatternRecordsOf(xs, load);
    RecordsConcat(LoadAll(et, load).value, LoadAll(pt, load).value, es, xs, load);
  }

  /** The records read for explicit tokens carry each token's mapping. */
  lemma ExplicitRecordsOf<D>(es: seq<string>, load: string -> Option<D>)
    requires forall m :: m in es ==> IsExplicit(m)
    requires LoadAll(ExplicitTargets(es), load).Success?
    ensures var ra := LoadAll(ExplicitTargets(es), load).value;
      |ra| == |es| && forall i :: 0 <= i < |es| ==> IsRecordOf(ra[i], ExplicitMapping(es[i]), load)
  {
    var et := ExplicitTargets(es);
    var ra := LoadAll(et, load).value;
    forall i | 0 <= i < |es| ensures IsRecordOf(ra[i], ExplicitMapping(es[i]), load) {
      assert IsRecordOf(ra[i], et[i], load);
    }
  }

  /** The records read for expanded paths carry each path and its parent directory's name. */
  lemma PatternRecordsOf<D>(xs: seq<string>, load: string -> Option<D>)
    requires LoadAll(PatternTargets(xs), load).Success?
    ensures var rb := LoadAll(PatternTargets(xs), load).value;
      |rb| == |xs| && forall j :: 0 <= j < |xs| ==> IsRecordOf(rb[j], Mapping(ParentName(xs[j]), xs[j]), load)
  {
    var pt := PatternTargets(xs);
    var rb := LoadAll(pt, load).value;
    forall j | 0 <= j < |xs| ensures IsRecordOf(rb[j], Mapping(ParentName(xs[j]), xs[j]), load) {
      assert IsRecordOf(rb[j], pt[j], load);
    }
  }

  lemma RecordsConcat<D>(ra: seq<InputData<D>>, rb: seq<InputData<D>>, es: seq<string>, xs: seq<string>,
                         load: string -> Option<D>)
    requires forall m :: m in es ==> IsExplicit(m)
    requires |ra| == |es| && forall i :: 0 <= i < |es| ==> IsRecordOf(ra[i], ExplicitMapping(es[i]), load)
    requires |rb| == |xs| && forall j :: 0 <= j < |xs| ==> IsRecordOf(rb[j], Mapping(ParentName(xs[j]), xs[j]), load)
    ensures RecordsInOrder(ra + rb, es, xs, load)
  {
    ConcatAt(ra, rb);
    forall j | 0 <= j < |xs| ensures IsRecordOf((ra + rb)[|es| + j], Mapping(ParentName(xs[j]), xs[j]), load) {
      assert (ra + rb)[|es| + j] == rb[j];
    }
  }

  /** Fail-fast, in reading order: a failure names the first file among all requested ones,
      explicit before pattern-matched, that cannot be read. */
  lemma ResolveReportsFirstUnreadable<D>(args: ParsedArgs, glob: string -> seq<string>, load: string -> Option<D>)
    ensures var targets, r := AllTargets(args, glob), Resolve(args, glob, load);
      r.Failure? ==> exists i :: FirstUnreadable(targets, load, i) && r.error == UnreadableFile(targets[i].fileName)
  {
    ResolveIsOnePass(args, glob, load);
  }

  /** `getInputDataFromArgs`: loads the explicit mappings, then expands the patterns (printing
      a warning for each that matches nothing), then loads the matches. When an explicit file
      fails the process stops before any pattern is expanded, so no warning is printed. */
  method GetInputDataFromArgs<D>(args: ParsedArgs, glob: string -> seq<string>, load: string -> Option<D>)
    returns (r: Result<seq<InputData<D>>, InputError>, warnings: seq<string>)
    ensures r == Resolve(args, glob, load)
    ensures var tokens := InputTokens(args.positional);
      var es := Explicit(tokens);
      warnings == if AllReadable(ExplicitTargets(es), load) then EmptyPatterns(Patterns(tokens), glob) else []
  {
    var inputArgs := InputTokens(args.positional);
    var explicitMappings := Explicit(inputArgs);
    var filePatterns := Patterns(inputArgs);
    var explicitTargets := ExplicitTargets(explicitMappings);
    var explicitInputs := LoadAll(explicitTargets, load);
    if explicitInputs.Failure? {
      return Failure(explicitInputs.error), [];
    }
    var expandedFiles;
    expandedFiles, warnings := ExpandGlobs(filePatterns, glob);
    var implicitInputs := LoadAll(PatternTargets(expandedFiles), load);
    if implicitInputs.Failure? {
      return Failure(implicitInputs.error), warnings;
    }
    r := Success(explicitInputs.value + implicitInputs.value);
  }

  /** With only explicit tokens, the records follow the token order exactly, and each package
      is the literal text before its token's first `=`. */
  lemma ExplicitOnlyOrder<D>(args: ParsedArgs, glob: string -> seq<string>, load: string -> Option<D>)
    requires forall t :: t in InputTokens(args.positional) ==> IsExplicit(t)
    requires Resolve(args, glob, load).Success?
    ensures var tokens, recs := InputTokens(args.positional), Resolve(args, glob, load).value;
      |recs| == |tokens| &&
      forall i :: 0 <= i < |tokens| ==>
        recs[i].packageName == tokens[i][..IndexOf(tokens[i], Separator)] &&
        recs[i].fileName == ExplicitMapping(tokens[i]).fileName
  {
    var tokens := InputTokens(args.positional);
    AllExplicitKept(tokens);
    assert Expansion([], glob) == [];
    ResolveRecords(args, glob, load);
    forall i | 0 <= i < |tokens| ensures ExplicitMapping(tokens[i]).packageName == tokens[i][..IndexOf(tokens[i], Separator)] {
      assert tokens[i] in tokens;
      PackageBeforeFirstSeparator(tokens[i]);
    }
  }

  /** Explicit records come first whatever the token order: moving an explicit token past an
      adjacent pattern token leaves the outcome unchanged. */
  lemma GroupPrecedence<D>(
    lead: seq<string>, before: seq<string>, x: string, y: string, after: seq<string>,
    flags: map<string, ArgValue>, glob: string -> seq<string>, load: string -> Option<D>)
    requires |lead| == 2 && IsExplicit(x) && !IsExplicit(y)
    ensures Resolve(ParsedArgs(lead + (before + [x, y] + after), flags), glob, load) ==
            Resolve(ParsedArgs(lead + (before + [y, x] + after), flags), glob, load)
  {
    var xy, yx := before + [x, y] + after, before + [y, x] + after;
    assert InputTokens(lead + xy) == xy;
    assert InputTokens(lead + yx) == yx;
    SwapAcrossGroups(before, x, y, after);
  }

  /** `pkg=file` maps `file` to `pkg` when neither holds a `=`. */
  lemma MappingOf(pkg: string, file: string)
    requires Separator !in pkg && Separator !in file
    ensures IsExplicit(pkg + [Separator] + file)
    ensures ExplicitMapping(pkg + [Separator] + file) == Mapping(pkg, file)
  {
    var token := pkg + [Separator] + file;
    assert token[|pkg|] == Separator;
    assert token == token + [];
    MappingIsDetermined(token, pkg, file, []);
  }

  lemma ExplicitTargetsOne(token: string)
    requires IsExplicit(token)
    ensures ExplicitTargets([token]) == [ExplicitMapping(token)]
  {
  }

  lemma ExplicitTargetsTwo(t1: string, t2: string)
    requires IsExplicit(t1) && IsExplicit(t2)
    ensures ExplicitTargets([t1, t2]) == [ExplicitMapping(t1), ExplicitMapping(t2)]
  {
  }

  lemma LoadOne<D>(t: Mapping, load: string -> Option<D>, d: D)
    requires load(t.fileName) == Some(d)
    ensures LoadAll([t], load) == Success([InputData(t.packageName, t.fileName, d)])
  {
    assert [t][1..] == [];
    assert LoadAll([], load) == Success([]);
    var rec := InputData(t.packageName, t.fileName, d);
    assert [rec] + [] == [rec];
  }

  lemma LoadTwo<D>(t1: Mapping, t2: Mapping, load: string -> Option<D>, d1: D, d2: D)
    requires load(t1.fileName) == Some(d1) && load(t2.fileName) == Some(d2)
    ensures LoadAll([t1, t2], load) ==
      Success([InputData(t1.packageName, t1.fileName, d1), InputData(t2.packageName, t2.fileName, d2)])
  {
    assert [t1, t2][1..] == [t2];
    LoadOne(t2, load, d2);
    var r1, r2 := InputData(t1.packageName, t1.fileName, d1), InputData(t2.packageName, t2.fileName, d2);
    assert LoadAll([t1, t2], load) == Success([r1] + [r2]);
    assert [r1] + [r2] == [r1, r2];
  }

  /** No patterns: nothing to read on the pattern side. */
  lemma NoPatternLoads<D>(glob: string -> seq<string>, load: string -> Option<D>)
    ensures LoadAll(PatternTargets(Expansion([], glob)), load) == Success([])
  {
    assert PatternTargets([]) == [];
  }

  /** A pattern that matches nothing: nothing to read, and one warning. */
  lemma EmptyPatternLoads<D>(pattern: string, glob: string -> seq<string>, load: string -> Option<D>)
    requires glob(pattern) == []
    ensures LoadAll(PatternTargets(Expansion([pattern], glob)), load) == Success([])
    ensures EmptyPatterns([pattern], glob) == [pattern]
  {
    ExpansionSnoc([], pattern, glob);
    assert [] + [pattern] == [pattern];
    assert PatternTargets([]) == [];
    assert [pattern][..0] == [];
    assert EmptyPatterns([pattern], glob) == [] + [pattern];
  }

  lemma ResolveFromGroups<D>(args: ParsedArgs, glob: string -> seq<string>, load: string -> Option<D>,
                             a: seq<InputData<D>>, b: seq<InputData<D>>)
    requires var tokens := InputTokens(args.positional);
      LoadAll(ExplicitTargets(Explicit(tokens)), load) == Success(a) &&
      LoadAll(PatternTargets(Expansion(Patterns(tokens), glob)), load) == Success(b)
    ensures Resolve(args, glob, load) == Success(a + b)
  {
  }

  lemma TokensAfterLead(lead: seq<string>, ts: seq<string>)
    requires |lead| == 2
    ensures InputTokens(lead + ts) == ts
  {
    if ts == [] {
      assert lead + ts == lead;
    } else {
      assert (lead + ts)[2..] == ts;
    }
  }

  lemma TwoExplicitTokens(lead: seq<string>, t1: string, t2: string)
    requires |lead| == 2 && IsExplicit(t1) && IsExplicit(t2)
    ensures Explicit(InputTokens(lead + [t1, t2])) == [t1, t2]
    ensures Patterns(InputTokens(lead + [t1, t2])) == []
  {
    TokensAfterLead(lead, [t1, t2]);
    assert [t1, t2][1..] == [t2];
    PartitionOne(t2);
    assert Explicit([t1, t2]) == [t1] + [t2];
    assert Patterns([t1, t2]) == [] + [];
  }

  lemma PatternThenExplicit(lead: seq<string>, p: string, t: string)
    requires |lead| == 2 && !IsExplicit(p) && IsExplicit(t)
    ensures Explicit(InputTokens(lead + [p, t])) == [t]
    ensures Patterns(InputTokens(lead + [p, t])) == [p]
  {
    TokensAfterLead(lead, [p, t]);
    assert [p, t][1..] == [t];
    PartitionOne(t);
    assert Explicit([p, t]) == [] + [t];
    assert Patterns([p, t]) == [p] + [];
  }

  /** Two explicit mappings whose files both parse give their two records, in token order,
      e.g. `pkgA=cov1.xml pkgB=cov2.xml` gives `pkgA`/`cov1.xml` then `pkgB`/`cov2.xml`. */
  lemma ExplicitPairScenario<D>(
    lead: seq<string>, pkg1: string, file1: string, pkg2: string, file2: string,
    glob: string -> seq<string>, load: string -> Option<D>, d1: D, d2: D)
    requires |lead| == 2
    requires Separator !in pkg1 && Separator !in file1 && Separator !in pkg2 && Separator !in file2
    requires load(file1) == Some(d1) && load(file2) == Some(d2)
    ensures Resolve(ParsedArgs(lead + [pkg1 + [Separator] + file1, pkg2 + [Separator] + file2], map[]), glob, load)
      == Success([InputData(pkg1, file1, d1), InputData(pkg2, file2, d2)])
  {
    var t1, t2 := pkg1 + [Separator] + file1, pkg2 + [Separator] + file2;
    var args := ParsedArgs(lead + [t1, t2], map[]);
    MappingOf(pkg1, file1);
    MappingOf(pkg2, file2);
    TwoExplicitTokens(lead, t1, t2);
    ExplicitTargetsTwo(t1, t2);
    var recs := [InputData(pkg1, file1, d1), InputData(pkg2, file2, d2)];
    LoadTwo(Mapping(pkg1, file1), Mapping(pkg2, file2), load, d1, d2);
    NoPatternLoads(glob, load);
    ResolveFromGroups(args, glob, load, recs, []);
    assert recs + [] == recs;
  }

  /** A path matched by its own pattern is tagged with its parent directory: with `q` empty
      or ending in `/`, the path `q + c + "/" + f` gets package `c`, as `coverage/a/cov.xml`
      gets `a`. */
  lemma PatternScenario<D>(
    lead: seq<string>, q: string, c: string, f: string,
    glob: string -> seq<string>, load: string -> Option<D>, d: D)
    requires |lead| == 2
    requires c != [] && f != [] && PathSeparator !in c && PathSeparator !in f && (q == [] || q[|q| - 1] == PathSeparator)
    requires Separator !in q + c + [PathSeparator] + f
    requires glob(q + c + [PathSeparator] + f) == [q + c + [PathSeparator] + f]
    requires load(q + c + [PathSeparator] + f) == Some(d)
    ensures Resolve(ParsedArgs(lead + [q + c + [PathSeparator] + f], map[]), glob, load)
      == Success([InputData(c, q + c + [PathSeparator] + f, d)])
  {
    var path := q + c + [PathSeparator] + f;
    var args := ParsedArgs(lead + [path], map[]);
    ParentNameOf(q, c, f);
    OnlyPattern(lead, path);
    SelfMatchLoads(path, glob, load, d);
    LoadNone(load);
    var rec := InputData(c, path, d);
    ResolveFromGroups(args, glob, load, [], [rec]);
    assert [] + [rec] == [rec];
  }

  lemma OnlyPattern(lead: seq<string>, p: string)
    requires |lead| == 2 && !IsExplicit(p)
    ensures ExplicitTargets(Explicit(InputTokens(lead + [p]))) == []
    ensures Patterns(InputTokens(lead + [p])) == [p]
  {
    TokensAfterLead(lead, [p]);
    PartitionOne(p);
  }

  /** A pattern that matches only itself: its one file is read, tagged with its parent. */
  lemma SelfMatchLoads<D>(path: string, glob: string -> seq<string>, load: string -> Option<D>, d: D)
    requires glob(path) == [path] && load(path) == Some(d)
    ensures LoadAll(PatternTargets(Expansion([path], glob)), load) == Success([InputData(ParentName(path), path, d)])
  {
    ExpansionSnoc([], path, glob);
    assert [] + [path] == [path];
    var m := Mapping(ParentName(path), path);
    assert PatternTargets([path]) == [m];
    LoadOne(m, load, d);
  }

  lemma LoadNone<D>(load: string -> Option<D>)
    ensures LoadAll([], load) == Success([])
  {
  }

  /** A pattern that matches nothing is warned about and adds no record, while an explicit
      mapping beside it still gives its record. */
  lemma EmptyPatternScenario<D>(
    lead: seq<string>, pattern: string, pkg: string, file: string,
    glob: string -> seq<string>, load: string -> Option<D>, d: D)
    requires |lead| == 2
    requires Separator !in pattern && Separator !in pkg && Separator !in file
    requires glob(pattern) == [] && load(file) == Some(d)
    ensures var args := ParsedArgs(lead + [pattern, pkg + [Separator] + file], map[]);
      Resolve(args, glob, load) == Success([InputData(pkg, file, d)]) &&
      EmptyPatterns(Patterns(InputTokens(args.positional)), glob) == [pattern]
  {
    var token := pkg + [Separator] + file;
    var args := ParsedArgs(lead + [pattern, token], map[]);
    MappingOf(pkg, file);
    PatternThenExplicit(lead, pattern, token);
    ExplicitTargetsOne(token);
    LoadOne(Mapping(pkg, file), load, d);
    EmptyPatternLoads(pattern, glob, load);
    var rec := InputData(pkg, file, d);
    ResolveFromGroups(args, glob, load, [rec], []);
    assert [rec] + [] == [rec];
  }
}
