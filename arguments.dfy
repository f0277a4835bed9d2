/** The argument bag produced by the command-line lexer, and the check `validateArgs` makes of it. */
module Arguments {
  import opened Wrappers

  /** The shapes a lexed option value can take: a string, a boolean presence marker,
      a number, or the array a repeated option collects. */
  datatype ArgValue = Str(s: string) | Bool(b: bool) | Num(n: int) | List(items: seq<ArgValue>)

  /** The bag: the positional tokens (key `_`) and every other key with its value. */
  datatype ParsedArgs = ParsedArgs(positional: seq<string>, flags: map<string, ArgValue>)

  /** The keys the tool recognises. */
  const KnownArgs: seq<string> := ["_", "o", "p", "print"]

  /** Why validation refused the bag; either way usage text is printed and the process stops. */
  datatype UsageError = UnknownArgument | MalformedInput

  /** Every key of the bag, `_` included. */
  function Keys(args: ParsedArgs): set<string>
  {
    {"_"} + args.flags.Keys
  }

  /** `args.o === true || Array.isArray(args.o)`. */
  predicate BadOutputFlag(args: ParsedArgs)
  {
    "o" in args.flags && (args.flags["o"] == Bool(true) || args.flags["o"].List?)
  }

  /** `typeof args.p === 'string' || Array.isArray(args.p)`. */
  predicate BadPrintFlag(args: ParsedArgs)
  {
    "p" in args.flags && (args.flags["p"].Str? || args.flags["p"].List?)
  }

  /** The values of `-o` the check lets through: a single string, a number, or `false`. */
  predicate AcceptedOutputValue(v: ArgValue)
  {
    v.Str? || v.Num? || v == Bool(false)
  }

  /** The values of `-p` the check lets through: a boolean or a number. */
  predicate AcceptedPrintValue(v: ArgValue)
  {
    v.Bool? || v.Num?
  }

  /** Refuses a bag with an unknown key first, then one with fewer than three positional
      tokens or a malformed `-o` or `-p`. */
  function ValidateArgs(args: ParsedArgs): (r: Outcome<UsageError>)
    ensures r == Fail(UnknownArgument) <==> exists k :: k in Keys(args) && k !in KnownArgs
    ensures r == Pass <==>
      (forall k :: k in Keys(args) ==> k == "_" || k == "o" || k == "p" || k == "print") &&
      |args.positional| >= 3 &&
      ("o" in args.flags ==> AcceptedOutputValue(args.flags["o"])) &&
      ("p" in args.flags ==> AcceptedPrintValue(args.flags["p"]))
  {
    var unknown := set k | k in Keys(args) && k !in KnownArgs;
    assert forall k :: k in Keys(args) && k !in KnownArgs ==> k in unknown;
    if unknown != {} then
      Fail(UnknownArgument)
    else if |args.positional| < 3 || BadOutputFlag(args) || BadPrintFlag(args) then
      Fail(MalformedInput)
    else
      Pass
  }

  /** An accepted bag leaves at least one input token after the two leading invocation tokens. */
  lemma AcceptedHasInput(args: ParsedArgs)
    requires ValidateArgs(args) == Pass
    ensures |args.positional| - 2 >= 1
  {
  }

  /** Adding any key outside the known set makes the bag unknown-argument, whatever else it holds. */
  lemma UnknownKeyRejected(args: ParsedArgs, key: string, v: ArgValue)
    requires key !in KnownArgs
    ensures ValidateArgs(args.(flags := args.flags[key := v])) == Fail(UnknownArgument)
  {
    assert key in Keys(args.(flags := args.flags[key := v]));
  }

  /** The value of the long `--print` flag is never inspected: any two values are judged alike. */
  lemma PrintLongFlagUnchecked(args: ParsedArgs, v: ArgValue, w: ArgValue)
    ensures ValidateArgs(args.(flags := args.flags["print" := v])) ==
            ValidateArgs(args.(flags := args.flags["print" := w]))
  {
    var a, b := args.(flags := args.flags["print" := v]), args.(flags := args.flags["print" := w]);
    assert Keys(a) == Keys(b);
  }

  /** `-o` given twice collects an array, which the check refuses. */
  lemma RepeatedOutputRejected(positional: seq<string>, first: string, second: string)
    ensures ValidateArgs(ParsedArgs(positional, map["o" := List([Str(first), Str(second)])])).Fail?
  {
  }

  /** An unrecognised flag such as `-x` is refused as an unknown argument. */
  lemma UnrecognisedFlagRejected(positional: seq<string>)
    ensures ValidateArgs(ParsedArgs(positional, map["x" := Bool(true)])) == Fail(UnknownArgument)
  {
    UnknownKeyRejected(ParsedArgs(positional, map[]), "x", Bool(true));
    assert map[]["x" := Bool(true)] == map["x" := Bool(true)];
  }
}
