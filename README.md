# merge-cobertura input resolution in Dafny

This project models the input stage of merge-cobertura, a tool that merges several
Cobertura XML coverage reports into one. The input stage takes the argument bag from the
command-line lexer. It checks the bag, then turns the positional tokens into an ordered
list of `{packageName, fileName, data}` records:

- a token `package=file` names its package explicitly;
- any other token is a glob pattern, and each file it matches is tagged with the name of
  the directory that holds it;
- the explicit records come first, then the pattern records;
- the first file that cannot be read or parsed stops the whole run.

Modules, one per concern of `src/input.ts`:

- `Wrappers`: `Option`, `Result` and `Outcome`.
- `Arguments`: the argument bag, the known keys and `validateArgs`.
- `XmlOptions`: the `isArray` coercion rule and how the parser uses it to store the
  occurrences of a tag.
- `Tokens`: dropping the two leading tokens, splitting the rest into an explicit group and a
  pattern group, `split('=')`, and the package and file an explicit token names.
- `Paths`: `path.dirname` and `path.basename` over `/`-separated paths, and the parent-directory
  package name.
- `Globs`: `expandGlobs` as a loop (`ExpandGlobs`), plus the function it is proved to compute
  (`Expansion`) and the patterns that draw a warning (`EmptyPatterns`).
- `Input`: reading every target with fail-fast (`LoadAll`), and the whole of
  `getInputDataFromArgs`. That is a method (`GetInputDataFromArgs`) proved equal to a
  specification function (`Resolve`), with lemmas about `Resolve`.

The file system, the glob matcher and the XML parser are parameters of the model:

- `glob: string -> seq<string>` stands for `glob.sync`;
- `load: string -> Option<D>` stands for `fs.readFileSync` followed by `parser.parse`. `None`
  means the file could not be read or parsed. `D`, the parsed document, is a type parameter.

Each `process.exit` becomes an error value: `Fail(UsageError)` from validation and
`Failure(UnreadableFile(name))` from input resolution. The warning `expandGlobs` prints for a
pattern with no matches becomes an out-parameter listing those patterns.

Where the code and the tool's documented behaviour differ, the model follows the code:

- Only the short `-p` option is checked for its shape. The long `--print` is a known key
  whose value is never inspected (`PrintLongFlagUnchecked`).
- `-o` is refused only when it is `true` or an array. A number, or `false` (as from
  `--no-o`), passes (`AcceptedOutputValue`).
- An explicit token's file is `parts[1]` of `split('=')`, so `a=b=c` names file `b`, not `b=c`
  (`DoubleSeparatorKeepsMiddle`).
- The XML rule keeps scalar every element named `coverage`, at any depth, not only the root
  element (`CoverageIsScalar`).
- Usage errors stop the process inside `printHelp`, which exits with status 0. So the
  `process.exit(1)` after the unknown-argument message is never reached, and both kinds of
  usage error are one outcome that differs only in its tag.

## Model

| member | source | states |
|---|---|---|
| `Arguments.ValidateArgs` | src/input.ts:47-60 | Refused as an unknown argument if and only if some key is outside `KNOWN_ARGS` = `_`, `o`, `p`, `print`. Accepted if and only if every key is known, there are at least 3 positional tokens, `o` is neither `true` nor an array, and `p` is neither a string nor an array. |
| `Arguments.AcceptedHasInput` | src/input.ts:56 | An accepted bag leaves at least one input token after the two leading ones. |
| `Arguments.UnknownKeyRejected` | src/input.ts:31-54 | Adding any key outside `KNOWN_ARGS`, with any value, makes the bag an unknown-argument failure, whatever else it holds. |
| `Arguments.PrintLongFlagUnchecked` | src/input.ts:56 | The value of `print` never changes the verdict: two bags that differ only in it are judged alike. |
| `Arguments.RepeatedOutputRejected` | src/input.ts:56 | `-o` given twice (an array) is refused. |
| `Arguments.UnrecognisedFlagRejected` | src/input.ts:49-53 | A bag with flag `x` is refused as an unknown argument, whatever its positional tokens. |
| `XmlOptions.IsArray` | src/input.ts:40-42 | The rule forces a list if and only if the node is not an attribute and its name is not `coverage`; what that does to stored values is stated by `ElementIsList`, `CoverageIsScalar` and `AttributeIsScalar`. |
| `XmlOptions.CollectShape` | src/input.ts:40-42 | The parser stores the occurrences of a tag as the list of all of them, in document order, when the rule forces lists or the tag occurs more than once; a single occurrence stays a bare value otherwise; no occurrence stores nothing. |
| `XmlOptions.ElementIsList` | src/input.ts:40-42 | Every element not named `coverage` is stored as a list of its occurrences, even when it occurs once. |
| `XmlOptions.CoverageIsScalar` | src/input.ts:40-42 | A single `coverage` element stays a bare value. |
| `XmlOptions.AttributeIsScalar` | src/input.ts:40-42 | An attribute, whatever its name, keeps its bare value. |
| `Tokens.InputTokens` | src/input.ts:81 | The tokens after the first two positional ones: two fewer than the positional tokens (none when there are at most two), token `i` being positional token `i + 2`. |
| `Tokens.Explicit` | src/input.ts:84 | Every token in the explicit group contains `=`. |
| `Tokens.Patterns` | src/input.ts:85 | No token in the pattern group contains `=`. |
| `Tokens.PartitionInterleaves` | src/input.ts:84-85 | The two groups are an order-preserving merge that rebuilds the token list. |
| `Tokens.PartitionUnique` | src/input.ts:84-85 | Any order-preserving split of the tokens into a group with `=` and a group without is exactly the two filters' result. |
| `Tokens.InterleavingKeepsAll` | src/input.ts:84-85 | An order-preserving merge keeps every element exactly once: the lengths add up and the multisets add up. |
| `Tokens.PartitionIsExact` | src/input.ts:84-85 | The group lengths sum to the token count, the groups hold each token as often as the tokens do, and a token is in the explicit group if and only if it contains `=` (in the pattern group if and only if not). |
| `Tokens.GroupSizes` | src/input.ts:81-85 | The two groups together are as long as the positional tokens less the two leading ones. |
| `Tokens.PartitionAppend` | src/input.ts:84-85 | The groups of a concatenation are the concatenations of the groups. |
| `Tokens.SwapAcrossGroups` | src/input.ts:84-85 | Swapping an explicit token with an adjacent pattern token changes neither group. |
| `Tokens.AllExplicitKept` | src/input.ts:84-85 | A list of explicit tokens is its own explicit group and has no patterns. |
| `Tokens.IndexOf` | src/input.ts:89 | The index of the first `c`: no `c` before it, `c` at it when `c` occurs, the length exactly when `c` does not occur. |
| `Tokens.Split` | src/input.ts:89 | `split` returns at least one part, and no part contains the separator. |
| `Tokens.SplitJoin` | src/input.ts:89 | Joining the parts of `split` with the separator gives back the string. |
| `Tokens.SplitCount` | src/input.ts:89 | `split` returns exactly one more part than the string has separators. |
| `Tokens.ExplicitMapping` | src/input.ts:89-91 | The package (`parts[0]`) is the prefix of the token before its first `=`. The file (`parts[1]`) is the text after it, up to the next `=` or the end. Neither contains `=`. |
| `Tokens.PackageBeforeFirstSeparator` | src/input.ts:89-90 | The package is exactly the token's prefix up to the index of its first `=`. |
| `Tokens.MappingIsDetermined` | src/input.ts:89-91 | For a token `pkg=file` followed by nothing or by another `=`, with no `=` in `pkg` or `file`, the mapping is `(pkg, file)`. |
| `Tokens.DoubleSeparatorKeepsMiddle` | src/input.ts:89-91 | `a=b=c` maps file `b` to package `a`. |
| `Paths.LastIndexOf` | src/input.ts:119-121 | The last `c`: absent exactly when `s` has no `c`, otherwise an index holding `c` with no `c` after it. |
| `Paths.Dirname` | src/input.ts:119 | A path with no `/` has directory `.`. Otherwise, unless the result is `/`, the directory is the prefix of the path before its last `/`. |
| `Paths.Basename` | src/input.ts:121 | A base name never contains `/`. |
| `Paths.ParentName` | src/input.ts:119-121 | The package name of a matched file never contains `/`. |
| `Paths.DirnameBasenameJoin` | src/input.ts:119-121 | For a path with a separator after its first character, directory name, `/` and base name put together give the path back. |
| `Paths.ParentNameOf` | src/input.ts:119-121 | For `q + c + "/" + f`, with `c` a non-empty component name, `f` a non-empty file name and `q` empty or ending in `/`, the package is `c`: the immediate parent directory. |
| `Paths.ParentNameOfBareFile` | src/input.ts:119-121 | A file name with no directory gets package `.`. |
| `Paths.ParentNameExample` | src/input.ts:119-121 | `coverage/a/cov.xml` gets package `a`. |
| `Globs.ExpandGlobs` | src/input.ts:68-78 | The loop returns the concatenation, in pattern order, of each pattern's matches (`Expansion`), and warns about exactly the patterns with no matches, in order (`EmptyPatterns`). |
| `Globs.ExpansionAppend` | src/input.ts:70-76 | Expanding a concatenation of pattern lists is concatenating their expansions. |
| `Globs.PatternOrder` | src/input.ts:70-76 | A pattern's matches sit, unaltered and in their own order, between the matches of the patterns before it and those after it. |
| `Globs.ExpansionLength` | src/input.ts:70-76 | The expansion is as long as the sum of the per-pattern match counts: nothing is deduplicated or dropped. |
| `Globs.ExpansionMembership` | src/input.ts:70-76 | A path is in the expansion if and only if some pattern matches it. |
| `Globs.EmptyPatternContributesNothing` | src/input.ts:71-75 | Removing a pattern with no matches leaves the expansion unchanged. |
| `Globs.WarnedIffEmpty` | src/input.ts:72-74 | A pattern is warned about if and only if it is one of the patterns and has no matches. |
| `Input.ExplicitTargets` | src/input.ts:88-91 | One mapping per explicit token, in order, each the token's `split('=')` package and file. |
| `Input.PatternTargets` | src/input.ts:109-122 | One mapping per expanded path, in order, with the path as file and its parent directory's name, free of `/`, as package. |
| `Input.LoadAll` | src/input.ts:93-99 | Succeeds if and only if every target's file is readable. On success it gives one record per target, in order, each with the target's package and file and the document read from it. On failure it names the first unreadable file and returns no record. |
| `Input.LoadAllAppend` | src/input.ts:93-99 | Loading two target lists one after the other, stopping at the first failure, is loading their concatenation. |
| `Input.AllTargets` | src/input.ts:88-127 | There are as many targets as explicit tokens and expanded paths together; `AllTargetsShape` gives their order and contents. |
| `Input.AllTargetsShape` | src/input.ts:88-127 | The files read are the explicit mappings in token order, then the expanded paths in expansion order, each path tagged with its parent directory's name. |
| `Input.Resolve` | src/input.ts:80-128 | On success, one record per explicit token and expanded path; on failure, the file named is one that cannot be read. Fail-fast and the record layout are stated by `ResolveSucceedsIff`, `ResolveRecords` and `ResolveReportsFirstUnreadable`. |
| `Input.ResolveIsOnePass` | src/input.ts:88-127 | Reading the explicit files and then the matched ones, each stage fail-fast, is one fail-fast pass over all targets in that order. |
| `Input.ResolveSucceedsIff` | src/input.ts:93-99 | The run succeeds if and only if every explicit mapping's file and every expanded path can be read. |
| `Input.ResolveRecords` | src/input.ts:88-127 | On success there are as many records as explicit tokens and expanded paths together. The explicit records come first, in token order, with the mapping's package and file. The pattern records follow, in expansion order, with the path as file and its parent directory as package. Each holds the document read from its file. |
| `Input.ResolveReportsFirstUnreadable` | src/input.ts:111-117 | A failure names the first unreadable file in reading order, explicit files before matched paths. |
| `Input.GetInputDataFromArgs` | src/input.ts:80-128 | The method's result is `Resolve`. Its warnings are the patterns with no matches when every explicit file was read, and none when an explicit file failed, because the process stops before patterns are expanded. |
| `Input.ExplicitOnlyOrder` | src/input.ts:84-105 | With only explicit tokens, the records follow the tokens one to one. Each package is the token's text before its first `=`, and each file is the mapping's file. |
| `Input.GroupPrecedence` | src/input.ts:84-85 | Moving an explicit token past an adjacent pattern token leaves the outcome unchanged: explicit records come first whatever the token order. |
| `Input.ExplicitPairScenario` | src/input.ts:88-105 | Two tokens `pkg1=file1 pkg2=file2` whose files parse give exactly their two records, in token order. |
| `Input.PatternScenario` | src/input.ts:108-125 | A pattern matching only the path `q + c + "/" + f`, with `c` a non-empty component and `f` a non-empty file name, gives one record for that path, with package `c`. |
| `Input.EmptyPatternScenario` | src/input.ts:72-74 | A pattern that matches nothing, beside a readable explicit mapping, adds no record and is the one pattern warned about. The mapping's record is the whole result. |

## Left out

- XML parsing by `fast-xml-parser` is not modelled. Reading and parsing are one partial function `load`, whose result type is a parameter. Of the parser options only the `isArray` rule is modelled, with the way a parser applies it to repeated tags.
- `fs.readFileSync` and `glob.sync` are parameters (`load`, `glob`). File-system state, glob syntax and the order in which the matcher lists files are whatever those functions say. A `glob.sync` that throws on a malformed pattern is not modelled.
- `printHelp` and all console output (the help text, the unknown-argument message, the error printed on a failed read) are not modelled. Usage errors are an `Outcome`, a failed read an `InputError`, and the empty-match warnings an out-parameter.
- Process exit statuses are not modelled; all of them are error values.
- Arguments.ValidateArgs: the flags are a map, so the order of `Object.keys` is not modelled. The model does not say which unknown key would be printed. It also treats an empty-string key as unknown. In the source, `find` stops at the first unknown key, and when that key is the empty string the truthiness test fails, so the whole unknown-argument refusal is skipped, even when other unknown keys follow it.
- Arguments.ValidateArgs: numbers are unbounded integers. JavaScript's floating-point numbers, which the lexer may produce for numeric options, are not distinguished. Every positional token is a string. A token the lexer turns into a number, on which `includes` would throw, is not modelled.
- Paths.Dirname and Paths.Basename treat `/` as the only separator. Trailing separators, repeated separators and Windows paths are not modelled as Node's `path` handles them.
- The minimist lexer that builds the argument bag and the merge and report stages that consume the records are not part of this model.
