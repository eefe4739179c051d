# envex core, modelled in Dafny

envex runs a child process under an environment that it builds from a
declarative profile. It also exposes values to other processes, including
values it discovers by watching the child's output. This project models the
core of envex and proves properties of that model. The core has seven parts:

- **Environment context** (`src/envctx.js`):
  - `extend` accumulates variable definitions. Keys may be decorated: `[NAME]` and `NAME?` are optional, and `NAME!` overrides the parent environment.
  - `parseEnvStr` splits a value into literal text, `${NAME}`/`$NAME` references and `$([profile] CMD)` commands.
  - `resolve` does four things:
    - rejects required definitions that have no value;
    - records dependencies;
    - walks them for cycles;
    - settles every variable in definition order.
  - Modules: `EnvDefs`, `EnvTemplates`, `EnvResolve`, `EnvContext`, `EnvCycles`, `EnvSettles`, `EnvExamples`.
- **Env files** (`src/persist.js`): the `KEY=VALUE` line reader, with quotes and `\n` unescaping, and the writer. Module `Persist`.
- **Profile resolver** (`src/config.js`):
  - memoised profile inheritance with cycle detection;
  - env-file imports;
  - the `extendProfileConfig` merge: `env` and `expose` accumulate as lists, and `cwd` is last-wins.
  - Modules `ProfileConfig` and `ProfileCycles`.
- **ANSI-stripping stream** (`src/strip-ansi-stream.js`):
  - The two regular expressions are transcribed into a backtracking-regex model. That model is module `Backtrack`, which enumerates match ends in JavaScript's priority order.
  - `transform` holds back a trailing possible escape sequence.
  - Module `StripAnsi`.
- **Command-line pre-splitter** (`separateChildArgs` in `src/cli.js`): puts in `--` before the child's command and puts in the default command when none was given. Module `CliArgs`.
- **Expose rules** (`src/exposectx.js`): `extend` compiles a configuration into an ordered rule list, and `apply` runs it. Module `ExposeRules`.
- **Exposed-value table** (`src/expose.js`): `set`, the `getvar` handler and `getAsync`. Module `ExposeTable`.

Shared pieces live in two modules:

- `Outcomes` holds `Option` and `Result`; a thrown `Error(message)` is an `Err` value.
- `JsText` holds the JavaScript string primitives used: `trim`, `\s`, `substring` with its argument swap, string `replace` and `lastIndexOf`.

## Modelling choices

- **Foreign code becomes data.**
  - A value function in an environment definition is represented by what it does: it returns a text, or returns `ctx.resolve(template)`.
  - A configuration function is represented by the configuration it returns.
  - User functions in an expose configuration are a `Behaviour` parameter: the values each one passes to its callback and the value it returns.
  - The command runner of `resolve` is a function parameter.
  - Commander's option and command tables are the `optionFor`/`isCommand` parameters of `CliArgs`.
- **Concurrency becomes a sequence.**
  - One `extend` call applies every synchronous item first: lists, names and maps, at any depth. A function's configuration comes back only after `await`, so it is applied in a later round, in the order its function was called (`EnvDefs.Rounds`).
  - `resolve`'s promises are modelled as sequential evaluation. A variable whose value can never settle is `Stuck`, and the whole resolution is then `Hangs`.
  - `Promise.all`'s first rejection is the first rejection in piece order.
- **Where the code falls short of its intended behaviour, the model follows the code:**
  - `writeEnvLine` computes an escaped value and sets the quotes for it (`src/persist.js:75`), and the reader unescapes `\n` inside double quotes (`src/__tests__/persist.test.js:5-15`). So a written multi-line value is meant to read back unchanged. The escaped value is discarded, so it does not (see Findings).
  - The walk in `resolve` is there to detect dependency cycles (`src/envctx.js:181-183`). It misses or overshoots in two cases:
    - A cycle closed only by a value function's returned text is never detected, and `resolve` never settles (`EnvExamples.ProducerCycleHangs`).
    - A diamond with no cycle is reported as circular (see Findings).
  - The stripping stream exists to remove escape sequences from a child's output. At the end of the stream, `flush` emits the held text unstripped (see Findings).
- **Quirks of the code that the model keeps:**
  - An empty `${}` or `$()` is consumed but produces no segment.
  - An empty resolved reference joins as `[object Object]` (`p.val || p`).
  - A `KEY=` line stores `undefined`.
  - Only the first `\)` of a command is unescaped.
  - An unknown option consumes the next non-dash word.
  - An expose key whose value is `null` exposes the text `null`.
  - The writer adds no quotes to a one-line value, so blanks at either end and wrapping quotes are lost on reading.
  - A value function's returned text is resolved after the final checks. A reference in it to a defined name without a value that no value mentioned earlier waits for ever (`EnvExamples.LateUnsetHangs`); the same reference in a literal fails (`EnvExamples.EagerUnsetFails`).

## Model

| member | source | states |
|---|---|---|
| EnvTemplates.RefEndIsPattern | src/envctx.js:247 | the direct matcher `RefEnd` returns exactly the end of the first match of the reference regex at every position, with alternatives tried in order and backtracking as JavaScript does |
| EnvTemplates.CloseAtIsPattern | src/envctx.js:247 | inside `$(`, the first `)` reached after the greedy run of `\)`/`[^)]` units is the one `CloseAt` finds |
| EnvTemplates.SplitProfileIsPattern | src/envctx.js:260-265 | `SplitProfile` removes exactly what `^(?:\[([^\]]*)\]\s*)?` matches, and finds a profile exactly when the optional group takes part |
| EnvTemplates.SplitProfile | src/envctx.js:258-265 | the rest is a suffix of the command; with a profile, the command starts with `[profile]`, the profile holds no `]`, and only white space lies between it and the rest |
| EnvTemplates.TokenAt | src/envctx.js:253-267 | a match yields no segment exactly when it is an empty `${}` or `$()`; a variable segment always has a non-empty name |
| EnvTemplates.NextRef | src/envctx.js:249 | the next match position is a match, and no position before it matches |
| EnvTemplates.ScanIsExact | src/envctx.js:249-252 | the pieces of a value tile it from left to right; literal pieces contain no match and each reference piece is the match at its start |
| EnvTemplates.TilesJoin | src/envctx.js:249-269 | literal pieces and matches joined back give the whole value |
| EnvTemplates.NoDollarIsText | src/envctx.js:246-270 | a value without `$` parses to one literal segment, or to nothing when empty |
| EnvTemplates.ScanStep | src/envctx.js:249-252 | one `exec` round yields the literal before the match, the match's segment, then the parse from the match's end |
| EnvTemplates.FindRef | src/envctx.js:249 | the loop finds the first matching position from the last index, or reports none |
| EnvTemplates.ParseEnvStr | src/envctx.js:246-270 | the `exec` loop returns exactly the specified segment list `Segments(s)` |
| EnvDefs.ParseEnvKey | src/envctx.js:227-244 | fails with `Empty environment variable name` exactly for keys that leave no name; a result never overrides while optional |
| EnvDefs.ParseEnvKeyDecorations | src/envctx.js:230-241 | `[NAME]` and `NAME?` give an optional definition, and `NAME!` gives a required, overriding one |
| EnvDefs.OverrideKey | src/envctx.js:238-241 | only a trailing `!` sets `override` |
| EnvDefs.EntryDef | src/envctx.js:46-53 | an entry fails exactly when its key does; a scalar, function or `undefined` value makes the definition required |
| EnvDefs.Add | src/envctx.js:55-60 | an existing name keeps its place and takes the fields the definition sets; a new name is skipped exactly when the parent has it and it does not override, and is otherwise appended with the given value, or none; nothing else changes |
| EnvDefs.ParentKeptUnlessOverridden | src/envctx.js:58 | a parent variable that no entry overrides never enters the table |
| EnvDefs.SyncKeepsOut | src/envctx.js:33-60 | the synchronous part of `_extend` keeps such a variable out, and no configuration it defers overrides it |
| EnvDefs.SyncAllKeepsOut | src/envctx.js:33-35 | the same holds for the members of a list, item by item |
| EnvDefs.RoundsKeepOut | src/envctx.js:33-39 | the same holds round after round, until no deferred configuration is left |
| EnvDefs.FunctionAppliedLast | src/envctx.js:33-39 | in `[ctx => ({PORT: a}), {PORT: b}]` the map is applied first and the function's `a` is merged over it, so `PORT` ends as `a` |
| EnvContext.EnvContext.constructor | src/envctx.js:13-16 | a new context has the given parent, an empty table and no failure |
| EnvContext.EnvContext.Extend | src/envctx.js:29-67 | extensions chain: after a failure nothing changes; otherwise the table and failure become those of `Apply` |
| EnvContext.EnvContext.ExtendWith | src/envctx.js:32-63 | `_extend` gives the table and error of `Apply`: synchronous items first, then the configurations of awaited functions, round after round, in the order their functions were called |
| EnvContext.EnvContext.SyncWith | src/envctx.js:33-60 | what `_extend` does before its first `await` gives the table, error and deferred configurations of `Sync` |
| EnvContext.EnvContext.AddAll | src/envctx.js:45-61 | the key loop gives the table and error of `AddEntries` |
| EnvContext.EnvContext.Resolve | src/envctx.js:78-213 | `resolve` reports an earlier extension failure, else returns `ResolveTable` of the context, in which a reference to a defined name without a value fails only when some value recorded that name before the final checks, and otherwise waits for ever |
| EnvContext.Record | src/envctx.js:106-132 | the dependencies recorded for a value and the eager error are those of `ScanRefs` over its segments |
| EnvContext.Admit | src/envctx.js:146-172 | the required-value check stops at the first required definition without a value; otherwise the waitlist is `Waitlist` |
| EnvContext.CheckCycle | src/envctx.js:184-200 | the level-by-level walk detects exactly when `Detects` says so |
| EnvContext.VisitLevel | src/envctx.js:187-199 | one level reports a revisit exactly when a name was already seen, marks the level seen, and returns the concatenated dependencies |
| EnvContext.Dependencies | src/envctx.js:154-171 | the recorded dependency graph is `DepGraph` |
| EnvContext.RejectCircular | src/envctx.js:175-201 | the names rejected as circular are `Rejections` |
| EnvContext.Await | src/envctx.js:206-212 | awaiting the waitlist in order collects `Settle`'s outcomes |
| EnvResolve.ScanRefs | src/envctx.js:113-126 | recorded dependencies are defined names other than the variable itself, each recorded once, in order |
| EnvResolve.Combine | src/envctx.js:134-138 | the joined result fails exactly when some piece fails, and hangs exactly when some piece hangs and none fails |
| EnvResolve.FirstMissing | src/envctx.js:146-151 | the reported name is required and has no value; when none is reported every definition has a value or is optional |
| EnvResolve.WaitlistExact | src/envctx.js:146-156 | the waitlist holds exactly the names with a value, in definition order, without repeats |
| EnvResolve.CollectResolved | src/envctx.js:206-212 | when every outcome is settled, the environment maps each waited name to its value |
| EnvResolve.ResolvedEnv | src/envctx.js:78-213 | a successful `resolve` holds exactly the defined names with values, each with its evaluated value |
| EnvResolve.ResolveStops | src/envctx.js:207-210 | `resolve` fails with the first failing variable in waitlist order, or hangs at the first one that never settles; a variable never settles when it waits on a cycle or on a valueless name whose waiter was first made after the final checks |
| EnvCycles.WalkRejectsCycles | src/envctx.js:184-200 | every variable from which a dependency cycle is reachable is rejected by the walk |
| EnvCycles.DiamondRejected | src/envctx.js:184-200 | the walk rejects the root of a diamond `A→B, A→C, B→D, C→D`, which reaches no cycle |
| EnvCycles.CircularIsCycle | src/envctx.js:184-200 | corrected walk: a variable is rejected if and only if it reaches a dependency cycle |
| EnvCycles.DiamondAccepted | src/envctx.js:184-200 | the corrected walk accepts the diamond |
| EnvSettles.NeverStuck | src/envctx.js:203-205 | when rejections cover every cycle and values are plain text, no variable is left waiting |
| EnvSettles.SettlesWith | src/envctx.js:203-210 | under the same conditions `resolve` settles: it resolves or fails, and never hangs |
| EnvSettles.PlainValuesSettle | src/envctx.js:175-210 | with plain-text values, the walk as written makes `resolve` settle |
| EnvSettles.FixedCovers | src/envctx.js:184-200 | the corrected rejections cover every variable that reaches a cycle |
| EnvSettles.FixedOnlyCycles | src/envctx.js:184-200 | the corrected walk rejects only variables that reach a cycle |
| EnvSettles.ResolveFixed | src/envctx.js:78-213 | `resolve` with the corrected walk never hangs on plain-text values |
| EnvExamples.UnknownVar | src/__tests__/envctx.test.js:4-10 | `{A: '$B'}` fails with `Undefined env var: B` |
| EnvExamples.SimpleResolve | src/__tests__/envctx.test.js:12-21 | a function resolving `$A` takes the value of `A` |
| EnvExamples.CircularResolve | src/__tests__/envctx.test.js:34-41 | two functions resolving each other fail with `Circular dependency: A` |
| EnvExamples.SimpleExpansion | src/__tests__/envctx.test.js:43-52 | `B: '$A'` expands to the value of `A` |
| EnvExamples.CircularExpansion | src/__tests__/envctx.test.js:65-75 | the cycle `B→C→D→B` fails with `Circular dependency: B` |
| EnvExamples.ParentRef | src/__tests__/envctx.test.js:94-101 | `${PORT}` takes the parent's value |
| EnvExamples.DoNotOverride | src/__tests__/envctx.test.js:103-110 | a parent variable is not redefined without `!`, and is absent from the result |
| EnvExamples.OverrideEnters | src/__tests__/envctx.test.js:112-117 | `PATH!` enters the table despite the parent's `PATH` |
| EnvExamples.ExtendVar | src/__tests__/envctx.test.js:112-120 | `PATH!: '${PATH}:…'` extends the parent's value |
| EnvExamples.InheritWithoutResolving | src/__tests__/envctx.test.js:122-132 | a parent value is taken as is and not expanded |
| EnvExamples.ProducerCycleHangs | src/envctx.js:161-171 | a cycle closed by a function's returned text passes the walk, and `resolve` never settles |
| EnvExamples.LateUnsetHangs | src/envctx.js:165-180 | a function returning `$X` for a defined `X` without a value makes a waiter after the final checks, so `resolve` never settles |
| EnvExamples.EagerUnsetFails | src/envctx.js:174-180 | a literal `$X` for the same `X` makes its waiter before the final checks, so `resolve` fails with `Undefined env var: X` |
| EnvExamples.DiamondTable | src/envctx.js:184-200 | `{A: '$B$C', B: '$D', C: '$D', D: 'abc'}` fails with `Circular dependency: A` |
| Persist.MatchLine | src/persist.js:28-35 | a matched line has a key of word characters, dots and dashes, and a value that is non-empty, starts with a non-space character and has no line terminator (trailing blanks stay in the capture; `Unquote` trims them) |
| Persist.ParseEnvLine | src/persist.js:32-54 | an unparsable line fails with `Cannot parse env line: LINE`; an entry always has a valid key |
| Persist.CommentsAndBlanksSkipped | src/persist.js:49-52 | a line is skipped if and only if it is a comment or blank |
| Persist.Store | src/persist.js:48 | the key gets the value, keeps its first position, and every other key is unchanged |
| Persist.QuotedLine | src/persist.js:36-46 | quotes are removed; only double quotes unescape `\n` |
| Persist.DoubleQuotedEscape | src/persist.js:41-45 | a double-quoted `a\nb` reads as a real newline |
| Persist.SingleQuotedEscape | src/persist.js:41-45 | a single-quoted `a\nb` stays a backslash and an `n` |
| Persist.ReadEscapedNewline | src/__tests__/persist.test.js:5-15 | the three lines of the test read back as the expected table |
| Persist.WriteEnvStream | src/persist.js:64-77 | one `KEY=value` line per key in key order; nothing for a missing env |
| Persist.LineRoundTrip | src/persist.js:71-76 | for a key of `[\w.-]` characters and a one-line value with no blank at either end and not wrapped in matching quotes, the written line reads back as the same key and value, with `undefined` for empty |
| Persist.QuotedValueUnwrapped | src/persist.js:36-42 | a one-line value wrapped in single quotes is written without added quotes and reads back without its quotes |
| Persist.LeadingBlankLost | src/persist.js:28-36 | a value with a leading blank is written as it is and reads back without the blank |
| Persist.SplitJoined | src/persist.js:18 | the line reader splits written lines back into the same lines |
| Persist.FileRoundTrip | src/persist.js:17-25 | a written env file whose keys are of `[\w.-]` characters and whose values are one-line, with no blank at either end and not wrapped in matching quotes, reads back as the same table (`Persist.QuotedValueUnwrapped` and `Persist.LeadingBlankLost` show why these conditions are needed) |
| Persist.MultiLineBreaks | src/persist.js:75 | a value with a newline is written unescaped and the file fails to read back |
| Persist.EscapedRoundTrip | src/persist.js:75 | escaping every newline gives a one-line value that unescapes back to the original |
| Persist.FixedLineRoundTrip | src/persist.js:71-76 | with every newline written escaped, a value with newlines reads back unchanged, provided it has no `\n` pair of its own and no other line terminator |
| Persist.FixedLineCollides | src/persist.js:71-76 | the escaped writer gives a newline followed by a `\n` pair and two newlines the same line, so no reader can give both back |
| ProfileConfig.Push | src/config.js:90-93 | a non-list base becomes a list (empty when falsy) and the new element is appended |
| ProfileConfig.ExtendProfileConfig | src/config.js:86-107 | `env`/`expose` grow by the extent's truthy value, `cwd` is the extent's when truthy, and an empty extent returns the base itself |
| ProfileConfig.ExtendAllEnvs | src/config.js:67-71 | extending by several profiles lists their `env` values in order |
| ProfileConfig.ExtendAllExposes | src/config.js:67-71 | the same for `expose` |
| ProfileConfig.ExtendAllCwd | src/config.js:67-71 | the last truthy `cwd` wins |
| ProfileConfig.ImportsListed | src/config.js:73-80 | each imported env file adds one `env` entry and nothing else |
| ProfileConfig.MergeOrderEnv | src/config.js:61-84 | a profile's `env` list is the parents' `env` values, then the imports, then its own |
| ProfileConfig.MergeOrderExpose | src/config.js:61-84 | a profile's `expose` list is the parents' values, then its own |
| ProfileConfig.MergeOrderCwd | src/config.js:61-84 | a profile's own `cwd` wins over the parents' last one |
| ProfileConfig.SelfExtension | src/config.js:39 | a profile extending itself fails with `Circular reference for profile` |
| ProfileConfig.MutualExtension | src/config.js:39 | two profiles extending each other fail the same way |
| ProfileCycles.CircularExtension | src/config.js:34-49 | a profile from which a chain of extensions, of any length, comes back to a profile already on it fails to resolve |
| ProfileCycles.PathFails | src/config.js:34-49 | along such a chain, each profile fails while those before it are in progress |
| ProfileCycles.CircularReported | src/config.js:39-40 | when the profiles on the chain are distinct up to the repeat and each one's earlier parents resolve, the error is `Circular reference for profile: NAME` for the repeated profile |
| ProfileCycles.PathReported | src/config.js:34-49 | along such a chain, each profile gives that same error while those before it are in progress |
| ProfileCycles.ResolveAllAt | src/config.js:67-70 | when the parents before one resolve and that one fails, the parent loop fails with its message |
| ProfileConfig.UnknownExtension | src/config.js:36-37 | extending a missing profile fails with `Unknown profile: NAME` |
| ProfileConfig.StandAlone | src/config.js:61-84 | a profile without parents or imports is its own fields merged into an empty profile |
| ProfileConfig.MemoHit | src/config.js:35 | a memoised profile is returned as stored |
| ProfileConfig.MemoStore | src/config.js:43-44 | storing a resolved profile keeps the memo sound |
| ProfileConfig.ConfigResolver.constructor | src/config.js:31-33 | a new resolver has nothing resolved and nothing in progress |
| ProfileConfig.ConfigResolver.Request | src/config.js:51-54 | `profile(name)` returns `Resolution` from a fresh in-progress set, keeps earlier memo entries and stores a success |
| ProfileConfig.ConfigResolver.Profile | src/config.js:34-50 | `_profile` returns `Resolution`, answers from the memo when present, and restores the in-progress set |
| ProfileConfig.ConfigResolver.ResolveRaw | src/config.js:61-84 | `resolveProfileConfigAsync` returns `Compose` of the raw profile |
| ProfileConfig.ConfigResolver.ResolveExtents | src/config.js:67-71 | the parent loop returns `ResolveAll`'s profiles and their merge, or its first error |
| StripAnsi.AnsiMatchAt | src/strip-ansi-stream.js:6-12 | an escape sequence starts at ESC or CSI and is never empty |
| StripAnsi.Strip | src/strip-ansi-stream.js:40 | stripping never lengthens the text |
| StripAnsi.StripPlain | src/strip-ansi-stream.js:40 | text without ESC or CSI is left unchanged |
| StripAnsi.StripSplit | src/strip-ansi-stream.js:40 | stripping distributes over a split made just before an ESC or CSI |
| StripAnsi.StripPlainPrefix | src/strip-ansi-stream.js:40 | an anchor-free prefix passes through unchanged |
| StripAnsi.PotentialAtAnchor | src/strip-ansi-stream.js:14-20 | the partial pattern matches every text starting with ESC or CSI |
| StripAnsi.AnchorIndex | src/strip-ansi-stream.js:29-30 | the last ESC, else the last CSI, else none |
| StripAnsi.Cut | src/strip-ansi-stream.js:29-38 | the text splits into an emitted part and a held part that starts at the anchor and is empty exactly when there is no anchor |
| StripAnsi.SgrMatch | src/strip-ansi-stream.js:6-12 | `ESC[4m` and `ESC[0m` are whole escape sequences |
| StripAnsi.AnsiStripper.constructor | src/strip-ansi-stream.js:22-24 | a new stream holds and has emitted nothing |
| StripAnsi.AnsiStripper.Transform | src/strip-ansi-stream.js:25-42 | each chunk emits the stripped text before the last anchor and holds the rest; over the stream, the output is the stripped text of everything not held |
| StripAnsi.AnsiStripper.Flush | src/strip-ansi-stream.js:43-45 | as written, `flush` emits the held text unstripped (when nothing is held the source never calls back; the model returns the empty text) |
| StripAnsi.AnsiStripper.FlushFixed | src/strip-ansi-stream.js:43-45 | corrected: the output is the stripped input for any split into chunks |
| StripAnsi.StripSimpleInput | src/__tests__/strip-ansi-stream.test.js:5-11 | `ESC[4mUnicornESC[0m` strips to `Unicorn` |
| StripAnsi.SimpleCode | src/__tests__/strip-ansi-stream.test.js:5-11 | one write emits `Unicorn` and holds `ESC[0m` |
| StripAnsi.ProgressiveDetection | src/__tests__/strip-ansi-stream.test.js:13-27 | the five writes show `Golden `, three times, then `Golden Unicorn` twice |
| StripAnsi.FlushLeaks | src/strip-ansi-stream.js:43-45 | ending the simple test's stream emits `UnicornESC[0m`, not `Unicorn` |
| StripAnsi.FlushStrips | src/strip-ansi-stream.js:43-45 | with the corrected flush the same stream emits `Unicorn` |
| CliArgs.Scan | src/cli.js:138-162 | the scan stops at `--`, at the end, or at a word for the child, which is neither an option nor a command |
| CliArgs.ScanPasses | src/cli.js:141-156 | every word passed is an option, the word after one, or a command; a command is reported only if one was passed |
| CliArgs.SeparateChildArgs | src/cli.js:135-167 | the loop's result is `Separated`: the input with the default command and `--` put in where the scan stopped |
| CliArgs.SeparatedShape | src/cli.js:135-167 | at most two words are put in at one place; the words before and after are unchanged; `--` comes right before the child's command; no second `--` is added |
| CliArgs.EnvexOption | src/cli.js:66-77 | the options known to commander are exactly envex's own and `run`'s |
| CliArgs.ImplicitRun | src/__tests__/cli-args.test.js:42-46 | `-p app npm --init` becomes `-p app run -- npm --init` |
| CliArgs.ExplicitRun | src/__tests__/cli-args.test.js:16-20 | an explicit `run` only gets the `--` |
| CliArgs.OptionsBeforeRun | src/__tests__/cli-args.test.js:36-40 | options before `run`, one with a value, are skipped correctly |
| CliArgs.GetCommand | src/__tests__/cli-args.test.js:58-62 | `get PORT` becomes `get -- PORT` |
| CliArgs.NoArguments | src/cli.js:164-166 | with no arguments only the default command is added |
| ExposeRules.CompileValue | src/exposectx.js:33-56 | a key yields at most one rule; it throws `Invalid regex value: …` exactly for a truthy regex that is neither a string nor a RegExp; it yields nothing exactly for an object without a truthy regex |
| ExposeRules.EntriesError | src/exposectx.js:32-57 | a map definition throws exactly when one of its keys has an invalid regex |
| ExposeRules.CompileError | src/exposectx.js:18-62 | `extend` throws exactly for configurations with an invalid regex, and always with the `Invalid regex value` message |
| ExposeRules.CompileAllAppend | src/exposectx.js:19-20 | list items compile in order; after a throw, the rules pushed so far stay and later items add nothing |
| ExposeRules.ValueExposures | src/exposectx.js:36-41 | a per-key function exposes each callback value, then its defined return value, all under its key |
| ExposeRules.MapExposures | src/exposectx.js:22-29 | a whole-map function exposes what it passed to the callback, then its returned map if defined |
| ExposeRules.CompileCorrect | src/exposectx.js:18-87 | compiling then applying an accepted configuration does exactly what the configuration says, item by item and key by key |
| ExposeRules.ExposeContext.constructor | src/exposectx.js:8-9 | a new context has no rules |
| ExposeRules.ExposeContext.Extend | src/exposectx.js:18-62 | `extend` appends `Compile`'s rules and throws its error |
| ExposeRules.ExposeContext.ExtendEntries | src/exposectx.js:32-57 | the key loop appends the rules of the keys before the first invalid one |
| ExposeRules.ExposeContext.ExtendKey | src/exposectx.js:33-56 | one key appends the rule of `CompileValue` or throws its error |
| ExposeRules.ExposeContext.Apply | src/exposectx.js:78-87 | the rules run in order on the environment, which is empty when none is given |
| ExposeRules.EntriesStop | src/exposectx.js:46 | an invalid key ends a map definition with the rules of the keys before it |
| ExposeRules.WatchPortExample | src/exposectx.js:42-53 | a regex definition only attaches a watch, and a match exposes its first group |
| ExposeRules.InvalidInTheMiddle | src/exposectx.js:19-20 | in `[NAME, {K: {regex: 5}}, NAME2]`, the first rule stays pushed and the error is raised |
| ExposeTable.Answer | src/expose.js:10-22 | `getvar` succeeds with the key and its value, `undefined` when the key was never set; any other name fails with `unknown request: NAME` |
| ExposeTable.Fetched | src/expose.js:37-40 | `getAsync` yields the answer's value; an error answer rejects (its message is carried as is only in this model) |
| ExposeTable.ExposeServer.constructor | src/expose.js:9 | the table starts empty |
| ExposeTable.ExposeServer.Set | src/expose.js:25-27 | `set` overwrites one key and leaves the rest |
| ExposeTable.ExposeServer.Publish | src/envex.js:167-173 | setting every key of an exposure merges it into the table |
| ExposeTable.SetThenGet | src/expose.js:13-27 | after `set(name, val)` a remote get of `name` yields `val`, and every other key yields what it did before |
| ExposeTable.LastWriteWins | src/expose.js:25-27 | after a series of exposures, a key holds the value of the last exposure that names it |
| ExposeTable.NeverWritten | src/expose.js:25-27 | a key no exposure names keeps its earlier value |

## Left out

- Process I/O is not modelled: reading and writing files, `readline` events, streams and their piping (including that the stripping stream never finishes when `flush` has nothing held, since `potentialstr && cb(…)` then skips the callback), the IPC server and client, and process exit. These are replaced by values, such as a list of lines, a list of chunks, or a request.
- Concurrency and timing are not modelled. Promises run sequentially; callbacks a user function makes after it returns are not modelled; the order of several `resolve` rejections in time becomes piece order.
- Configuration loading is not modelled: finding and `require`-ing the configuration file (`src/config.js:111-142`).
- The rest of the command line is not modelled: `processArgs` and commander's own parsing (`src/cli.js:57-130`). Commander's tables enter only as the two oracles of `CliArgs`.
- Decoding of byte chunks is not modelled. The model's chunks are strings, so a chunk boundary inside a multi-byte UTF-8 character is outside the model. So is the UTF-8 form of CSI.
- Regex matching inside the stream watcher of `apply` (the `stream-snitch` library) is not modelled. A match is an input event given by its capture groups. Watchers attached to the empty tap that `apply` defaults to see no matches.
- A pattern string that `new RegExp` rejects is kept as text. The `SyntaxError` it would throw is not modelled.
- JavaScript's `Object.keys` order puts integer-like keys first. The model's map entries are taken in the order given, so the model does not reorder integer-like keys.
- Prototype properties of JavaScript objects (such as `toString` or `constructor`) are not modelled; the model's maps hold only their own keys. This affects several lookups:
  - `exposed[key]` (`src/expose.js:16`) and `env[name]` yield `undefined` for a missing key.
  - `name in defn` and `name in parentEnv` (`src/envctx.js:19, 55, 58, 118, 121`) see only defined names. In JavaScript a variable named `toString` counts as present, so its definition is merged onto the prototype member by `Object.assign` and is silently dropped.
  - `rawProfiles[name]` and `resolvedProfiles[name]` (`src/config.js:35-36`) are looked up as own keys only.
- The long dependency chain test (`src/__tests__/envctx.test.js:77-92`) is not restated as a concrete example. It exercises forward references across five definitions and the output order. `EnvResolve.ResolvedEnv` states both in general: on success the output holds exactly the valued defined names, in definition order, each with its evaluated value.
- The asynchronous variants of the simple tests (`src/__tests__/envctx.test.js:23-32,54-63`) are not restated either, since the model runs promises sequentially.
- ExposeRules.ExposeContext.Apply: the caller always passes a callback, so the model always returns the effects. When no callback is given, `apply` drops them; the model does not model that default no-op.
- Errors thrown or rejected by user code are not modelled. Three kinds are left out:
  - A value function that throws. In JavaScript it rejects that variable's waiter, so `resolve` fails with its error (`src/envctx.js:161-171`). `EnvDefs.Value` has no failing alternative.
  - A configuration function that throws. It rejects `defnpromise`, so every later `extend` is skipped and `resolve` fails (`src/envctx.js:37-38, 66, 81`). `EnvDefs.EnvConfig.EnvFn` always returns a configuration.
  - An expose function that throws. It stops `apply` at that rule (`src/exposectx.js:84-86`). `ExposeRules.Behaviour` always returns.
- EnvDefs.Apply: configuration functions are taken to return without awaiting anything themselves, so each one's configuration is ready one round later. A function that awaits I/O first would be applied later than the model says.
- EnvDefs.Apply: when several items of one `extend` call throw, JavaScript reports the one whose promise rejects first. That depends on how deeply each is nested in lists and rounds. The model reports the first error in the order it applies the items.
- Persist.FixedLineRoundTrip: the corrected writer escapes every newline, as `value.replace(/\n/g, …)` would. Assigning the result of the source's `value.replace('\n', …)` would escape only the first newline, and a value with two newlines would still break. The round trip is proved for values with no `\n` pair of their own and no line terminator other than the newline. A value with a `\n` pair cannot round-trip under this escape (`Persist.FixedLineCollides`). A carriage return ends a line for `readline`, which splits at `\n`, `\r\n` and a lone `\r`. U+2028 and U+2029 do not end a line there, but the reader's `.` does not match them, so the value capture stops at one: the line then fails to parse, or the character is lost to the trailing `\s*`. Values without a newline are covered by `Persist.LineRoundTrip`.
- EnvExamples.ProducerCycleHangs: a producer's returned text is parsed like a literal but resolved after the final checks, so its references reach the walk and the undefined check only when some value recorded them earlier (`EnvExamples.LateUnsetHangs`). Its `${ret}` conversion of non-string results is not modelled.

## Findings

| source | as written | input that shows it | evidently intended | confidence | as-written member | corrected member |
|---|---|---|---|---|---|---|
| src/envctx.js:184-200 | the cycle walk marks every visited name and reports a cycle when a name is met twice, even on two different paths | `{A: '$B$C', B: '$D', C: '$D', D: 'abc'}`: `A` fails with `Circular dependency: A` | reject exactly the variables that reach a dependency cycle | high, not executed | EnvExamples.DiamondTable | EnvCycles.CircularIsCycle |
| src/persist.js:75 | `value.replace('\n', …)` sets the quote but its escaped result is discarded, so the raw newline is written | `{VAR: 'a\nb'}` writes `VAR="a`, a newline and `b"`; reading back fails with `Cannot parse env line: b"` | write `VAR="a\nb"` with every newline escaped, so the value reads back | high, not executed | Persist.MultiLineBreaks | Persist.FixedLineRoundTrip |
| src/strip-ansi-stream.js:43-45 | `flush` emits the held text as it is, without stripping it | writing `ESC[4mUnicornESC[0m` then ending the stream emits `UnicornESC[0m` | emit the held text stripped, so the whole output is the stripped input | high, not executed | StripAnsi.FlushLeaks | StripAnsi.AnsiStripper.FlushFixed |
