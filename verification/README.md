# Command-line parsing and dispatch, modelled in Dafny

This project models the core of a small Go command-line framework. The core
covers five things:

- **Argument stream** (`cli/args.go`): the argument stream and flag extraction. Short-flag bundles such as `-abc` become `-a -b -c`. A flag may appear as `--long`, `--long=value`, `-s` or `-s value`. Extracted occurrences and the values they consume are removed.
- **Parameters** (`cli/parameters.go`): the values found for each flag, with typed lookup (`String`, `Bool`, `IsProvided`).
- **Dispatch** (`cli/app.go`): command and flag registration, and dispatch. `Run` extracts the global flags, then resolves a tree of commands. Each scope drops one token and extracts its own flags. Dispatch then calls the optional `Before` hook, then the handler of the deepest command, or `Fallback`.
- **Registry** (`cli/registry.go`): a name-to-handler table.
- **Helpers** (`utils/set.go`, `utils/uri_template.go`): a string set, and a small URI-template expander (`{a,b}` and `{?a,b}`).

Everything is modelled as immutable values and pure functions:

- The Go pointers that are mutated in place become values returned updated.
- Handlers are opaque identifiers.
- `Run` returns the context it builds, the command name it passes to the hooks, the commands it visited, and the sequence of calls it makes.
- Go leaves map iteration order unspecified. Where it matters (the order in which a scope's flags are extracted), the order is an explicit parameter, `CliApp.FlagOrder`. Its properties are proved for every valid order.
- Go's `range` over a map becomes `Collections.Enumerate`, which picks members in an arbitrary order.

Modules, leaf first:

- `Wrappers`: `Option`.
- `Strings`: the Go `strings` operations used here.
- `Collections`: enumerations of sets.
- `CliParameters`, `CliArgs`, `CliApp`, `CliRegistry`, `StringSet`, `UriTemplate`: one module per source file.

Behaviour of the code worth knowing, as modelled:

- **Command name.** `Run` reads the command name from the raw first argument, before the global flags are extracted. A global flag written before the command name is therefore taken as the name. See `CliApp.FlagBeforeCommandFallsBack`.
- **`Before`.** The hook returns nothing and cannot change which command runs.
- **Extraction order.** A scope's flags are extracted in map order, not registration order. The order is observable, so extraction is not commutative. See `CliApp.FlagOrderMatters`.
- **`SubcommandArgs`.** Its doc comment says a name that was not called gets no arguments. The code drops exactly one token whatever the name (`CliArgs.SubcommandArgsIgnoresName`, `CliArgs.SubcommandArgsMismatchKeepsTail`). Dispatch relies on this behaviour, so it is modelled as written.

## Model

| member | source | states |
|---|---|---|
| `Strings.ToLower` | cli/parameters.go:49 | Lower-casing keeps the length and maps each character to its lower-case form. |
| `Strings.SplitFirst` | cli/args.go:115 | Splitting at the first `=` gives a head without `=`, and a tail such that head + `=` + tail is the token. With no `=`, it gives the whole token and no tail. |
| `Strings.Split` | utils/uri_template.go:27 | Splitting on `,` yields at least one piece, and no piece contains `,`. |
| `Strings.JoinSplit` | utils/uri_template.go:27 | Joining the pieces of a split with the separator gives back the original text. |
| `Strings.SplitJoin` | cli/args.go:82-84 | Splitting a join of separator-free pieces gives back the pieces. |
| `Collections.Enumerate` | cli/registry.go:14-20 | Copying the members of a set into a slice in map order lists each member exactly once, and the slice has the set's size. |
| `CliParameters.AddValue` | cli/parameters.go:27-29 | One value is appended at the end. Earlier values, `provided` and the flag are unchanged. |
| `CliParameters.ParameterString` | cli/parameters.go:38-44 | Yields the last recorded value, or "" when there is none. |
| `CliParameters.LastAddedWins` | cli/parameters.go:27-44 | After adding `v`, `String` reports `v`, and `IsProvided` is unchanged. |
| `CliParameters.ParameterBool` | cli/parameters.go:48-51 | True exactly when there is a last value and it lower-cases to "true", "t" or "1". False when there are no values. |
| `CliParameters.TruthySpellings` | cli/parameters.go:49-50 | The accepted spellings, listed without lower-casing: "1", "t"/"T", and "true" with each letter in either case. |
| `CliParameters.SpellingExamples` | cli/parameters.go:46-51 | "true", "T" and "1" read as true. "false", "0" and "" do not. |
| `CliParameters.ParametersIsProvided` | cli/parameters.go:54-60 | False for an unknown long name. Otherwise it is the stored parameter's `provided`. |
| `CliParameters.ParametersString` | cli/parameters.go:64-70 | Yields the fallback when the parameter is unknown or was not provided. Otherwise yields the parameter's last value, which may be "". |
| `CliParameters.ParametersBool` | cli/parameters.go:74-80 | False for an unknown long name. Otherwise it is the parameter's `Bool`, whether or not the flag was provided. |
| `CliParameters.AddParameter` | cli/parameters.go:83-88 | Stores the parameter under its flag's long form. The keys grow by that name only, and every other entry is unchanged. |
| `CliParameters.LookupsAfterAdd` | cli/parameters.go:54-88 | After storing a parameter, lookups of its long form answer from it: `IsProvided` is its `provided`, `String` its last value when provided and the fallback otherwise, `Bool` its `Bool`. Lookups of every other name are unchanged. |
| `CliParameters.AddParameterLastWins` | cli/parameters.go:87 | Adding two parameters for the same long form keeps only the second. |
| `CliArgs.NewArgs` | cli/args.go:17-23 | The first element is the program name, the command name is empty, and program name followed by the stream is the input. |
| `CliArgs.Peek` | cli/args.go:64-69 | Yields the token at the index, or "" past the end. |
| `CliArgs.Slice` | cli/args.go:77-79 | Yields the tokens from `start` on: as many as remain, each the one `Peek` sees at that position. |
| `CliArgs.String` | cli/args.go:82-84 | A one-token stream prints as that token, and no token is longer than the printed stream. `StringRoundTrip` is its inverse: splitting the result on spaces gives the tokens back. |
| `CliArgs.StringRoundTrip` | cli/args.go:82-84 | For a non-empty stream in which no token holds a space, splitting `String` on spaces gives back the tokens. An empty stream prints as "", which splits into one empty token, so it is excluded. |
| `CliArgs.ExtendName` | cli/args.go:39-44 | An empty name leaves the command path alone, an empty path becomes the name, and otherwise the name is appended after one space. |
| `CliArgs.SubcommandArgs` | cli/args.go:27-51 | Keeps the program name. Drops the first token and yields the rest, or nothing from an empty stream. The command path is unchanged on a mismatch with more than one token, and extended with the name otherwise. |
| `CliArgs.SubcommandArgsIgnoresName` | cli/args.go:29-37 | The tokens left do not depend on the name asked for. |
| `CliArgs.SubcommandArgsMismatchKeepsTail` | cli/args.go:26-37 | A name that was not called still gets the remaining tokens, against the doc comment. With a single token, the path is extended even on a mismatch. |
| `CliArgs.Shift` | cli/args.go:72-74 | The first token followed by the remaining stream is the old stream. Program name and command path are kept. |
| `CliArgs.ExplodeToken` | cli/args.go:93-100 | A token matching `^-[a-zA-Z]{2,}$` becomes one `-x` per letter, in order. Any other token is kept as it is, and no resulting token is a bundle. |
| `CliArgs.Explode` | cli/args.go:92-101 | The pre-pass yields at least one token per input token. `ExplodeAppend` (token by token), `ExplodeLeavesNoBundle` and `ExplodeWithoutBundles` state the rest. |
| `CliArgs.ExplodeAppend` | cli/args.go:92-101 | The pre-pass works token by token: exploding a concatenation is concatenating the explosions. |
| `CliArgs.ExplodeLeavesNoBundle` | cli/args.go:92-101 | No bundle survives the pre-pass. |
| `CliArgs.ExplodeWithoutBundles` | cli/args.go:92-101 | A stream without bundles is unchanged by the pre-pass. |
| `CliArgs.Extract` | cli/args.go:140-145 | The parameter carries the flag, and the new stream keeps the program name with an empty command path. |
| `CliArgs.ExtractRemovesFlag` | cli/args.go:107-138 | The remaining tokens are a subsequence of the exploded tokens, in order, and none of them spells the flag. The flag is provided exactly when some exploded token spells it. |
| `CliArgs.Classify` | cli/args.go:114-135 | A token read as the short form is the flag's non-empty short form. `ClassifyForms` gives the full reading, and `Names` is "read as either form". |
| `CliArgs.ClassifyForms` | cli/args.go:114-135 | A token read as the short form is the non-empty short form and does not start with `--`. A token read as the long form starts with `--`, and the long form is non-empty and holds no `=`. The token is then the long form itself when there is no inline value, and long form + `=` + value otherwise. A bare `--long` always reads as the long form with no value. |
| `CliArgs.Step` | cli/args.go:107-137 | A flag once provided stays provided. `StepEffect` states the rest of one iteration, and `ScanIsOccurrences` the whole loop. |
| `CliArgs.StepEffect` | cli/args.go:107-137 | A token is kept exactly when no value is pending and it does not spell the flag; otherwise it is consumed. At most one value is recorded, `provided` never goes back to false, and a value becomes pending only after a value flag spelled without an inline value, with none pending before. |
| `CliArgs.Scan` | cli/args.go:107-138 | A flag once provided stays provided. `ScanBounds` bounds what the loop keeps and records, and `ScanIsOccurrences` equates the loop with the reference `Occurrences`. |
| `CliArgs.ScanBounds` | cli/args.go:107-138 | Each token adds at most one kept token and at most one value, and `provided` never goes back to false. |
| `CliArgs.ExtractThenLookup` | cli/args.go:87-146 | After extracting a flag and storing its parameter, `IsProvided` holds exactly when some exploded token names the flag. `String` is then the last value recorded, or "" when none was, and the fallback otherwise. `Bool` is true exactly when a last value was recorded and is truthy. |
| `CliArgs.ScanIsOccurrences` | cli/args.go:105-138 | The scan loop with its pending-value state computes the reference extraction `Occurrences`, which is defined by lookahead without that state. |
| `CliArgs.OccurrencesKeepOrder` | cli/args.go:107-138 | The reference extraction keeps a subsequence of the tokens, none of which spells the flag. |
| `CliArgs.OccurrencesProvided` | cli/args.go:124-134 | `provided` holds exactly when some token spells the flag. |
| `CliArgs.OccurrencesOfAbsentFlag` | cli/args.go:114-137 | When no token spells the flag, every token is kept and nothing is recorded. |
| `CliArgs.ExtractIsOccurrences` | cli/args.go:87-146 | `Extract` is the reference extraction applied to the exploded tokens. |
| `CliArgs.ExtractAbsentFlag` | cli/args.go:87-146 | A flag that does not occur is not provided and has no values. The stream becomes its explosion. |
| `CliArgs.ExtractIdempotent` | cli/args.go:87-146 | Extracting the same flag again from the result finds nothing and leaves the stream unchanged. |
| `CliArgs.BoolFlagOccurrences` | cli/args.go:116-133 | For a boolean flag, exactly the tokens that spell it are removed. Each records "true", or its inline `=value`, in scan order. |
| `CliArgs.ValueFlagTakesNextToken` | cli/args.go:108-112 | A value flag records the next token as its value, whatever it looks like, and removes it. |
| `CliArgs.ValueFlagLast` | cli/args.go:124-137 | After tokens that do not name it, a value flag's naming token with no inline value, as the last token, marks it provided with no value; every earlier token is kept. |
| `CliArgs.ValueFlagAtEnd` | cli/args.go:87-146 | When the last exploded token names a value flag without an inline value and no earlier token names it, the parameter is provided with no values, and only that last token leaves the stream. |
| `CliArgs.InlineValueSameAsSeparate` | cli/args.go:87-146 | `--long=v` and `--long v` give the same parameter and the same stream when they lead the stream, the long form holds no `=`, and v is not a short-flag bundle. A bundle differs: `--description -ab` takes "-a" and keeps `-b`, while `--description=-ab` records "-ab". |
| `CliArgs.InlineOccurrences` | cli/args.go:114-123 | On the exploded tokens, `--long=v` records v by itself and `--long` records the token after it, so both scans agree. |
| `CliArgs.OccurrencesKeep` | cli/args.go:137 | A token that does not name the flag is kept ahead of what the rest of the scan keeps, and records nothing. |
| `CliArgs.OccurrencesKeepAll` | cli/args.go:107-138 | A run of tokens none of which names the flag is kept whole, in order, ahead of what the rest keeps. |
| `CliArgs.OccurrencesOwn` | cli/args.go:117-121 | A naming token with an inline value, or of a boolean flag, records that value first, marks the flag provided and leaves the stream. |
| `CliArgs.OccurrencesTake` | cli/args.go:108-112 | A naming token of a value flag records the token after it, and both leave the stream. |
| `CliArgs.ShortBoolHead` | cli/args.go:116-135 | A boolean flag's short form in front of tokens that do not name it records "true" and is the only token removed. |
| `CliArgs.ShortBoolOccurrences` | cli/args.go:107-138 | A boolean flag's short form, with any tokens that do not name it before and after it, records "true" and is the only token removed; the others keep their order. |
| `CliArgs.BundleExtraction` | cli/args_test.go:14-19 | `hi -abcd hello world` minus `-c`/`--colorize`: provided and true, and the stream is `-a -b -d hello world`. |
| `CliArgs.ExplodedValueExtraction` | cli/args_test.go:21-24 | From `-a -b -d hello world`, `-d` takes "hello" and leaves `-a -b world`. |
| `CliArgs.RepeatedBoolFlag` | cli/args_test.go:27-33 | `-c w1 --colorize=v w2` records "true" then v and keeps `w1 w2`. `Bool` is true exactly when v is truthy, so "0" gives false. |
| `CliArgs.RepeatedValueFlag` | cli/args_test.go:35-41 | `-d x1 w1 --description=x2 w2 --description x3 w3` records x1, x2, x3 in order and keeps `w1 w2 w3`. |
| `CliArgs.ColorizeOccurrences` | cli/args_test.go:14-19 | Scanning `-a -b -c -d hello world` for `-c` records "true" and keeps the other five tokens in order. |
| `CliArgs.DescriptionOccurrences` | cli/args_test.go:21-24 | Scanning `-a -b -d hello world` for `-d` records "hello" and keeps `-a -b world`. |
| `CliArgs.RepeatedValueTail` | cli/args_test.go:35-41 | `--description=x2 w2 --description x3 w3` records x2 then x3 and keeps `w2 w3`. |
| `CliArgs.RepeatedValueOccurrences` | cli/args_test.go:35-41 | The whole exploded stream of the repeated-value case records x1, x2, x3 in order and keeps `w1 w2 w3`. |
| `CliApp.Enter` | cli/app.go:59-61 | After a registration loop, the keys are the old ones plus the registered ones. Each key holds the last item registered under it, and every other entry is unchanged. |
| `CliApp.AppRegisterCommand` | cli/app.go:55-62 | Registers commands by name under the rule of `Enter`. Nothing else in the app changes. |
| `CliApp.AppRegisterFlag` | cli/app.go:65-72 | Registers global flags by long form under the rule of `Enter`. Nothing else changes. |
| `CliApp.CommandRegisterCommand` | cli/app.go:80-87 | Registers subcommands by name under the rule of `Enter`. Nothing else in the command changes. |
| `CliApp.CommandRegisterFlag` | cli/app.go:90-97 | Registers a command's flags by long form under the rule of `Enter`. Nothing else changes. |
| `CliApp.EnterOrigin` | cli/app.go:59-61 | Each entry after a registration loop is either the old entry or an item registered under its own key. |
| `CliApp.RegistrationKeepsWellFormed` | cli/app.go:80-97 | Registration on a command keeps every flag under its long form and every subcommand, recursively well formed, under its name. |
| `CliApp.AppRegistrationKeepsWellFormed` | cli/app.go:55-72 | Registration on the application keeps every global flag under its long form and every command, recursively well formed, under its name. |
| `CliApp.ExtractAll` | cli/app.go:132-135 | The flag loop of a scope, and of the global flags at cli/app.go:114-117, keeps the program name. `ExtractAllEntries` gives the parameters it stores, and `ExtractAllUnlisted` shows that keys naming no flag are skipped. |
| `CliApp.ExtractAllUnlisted` | cli/app.go:132-135 | When none of the listed keys is a flag, the stream and the parameters come back as they were given. |
| `CliApp.ExtractAllEntries` | cli/app.go:132-135 | After a scope's loop, every listed flag has a parameter, provided or not, replacing any earlier one with the same long form. Other entries stay. |
| `CliApp.ExtractScopeEntries` | cli/app.go:114-117 | When the order visits the whole scope, the parameters hold the earlier ones overridden by all of the scope's flags. |
| `CliApp.FlagOrderMatters` | cli/app.go:114-117 | With value flag `-a` and boolean flag `-b` on `-a -b`, taking `-a` first gives it the value "-b" and leaves `-b` unprovided. Taking `-b` first leaves `-b` provided, and `-a` provided with no value. |
| `CliApp.Resolve` | cli/app.go:129-143 | The commands visited form a trace: the first is the given command, and each scope drops one token with `SubcommandArgs` and then extracts its flags in map order from what the scope before it left. Each next command is the child named by the first token left; it stops at a command with no child so named. The result is the last scope's stream and parameters, and the deepest command's function. |
| `CliApp.TracedCons` | cli/app.go:136-140 | A scope followed by a trace from the child named by its next token is a trace from the parent. |
| `CliApp.TracedTail` | cli/app.go:136-140 | A trace longer than one scope continues with a trace from the second command, started on what the first scope left. |
| `CliApp.ScopeStep` | cli/app.go:130-135 | One scope keeps the program name. `FlaglessStep` shows that a scope without flags only drops one token, and `ScopeEntries` shows that the parameters gain the scope's flags. |
| `CliApp.ScopeEntries` | cli/app.go:130-135 | When the order visits each of the scope's flags once, the parameters after the scope are the earlier ones overridden by all of the scope's flags. |
| `CliApp.TracedUnique` | cli/app.go:129-143 | There is only one trace from a command, stream and parameters, so the trace `Resolve` reports is the one `command` follows. |
| `CliApp.FlaglessStep` | cli/app.go:130-135 | A scope without flags leaves its stream minus the first token, or nothing from an empty stream, and the parameters unchanged. |
| `CliApp.TracedFlagless` | cli/app.go:130-135 | In any trace, a scope without flags leaves what the scope before it left, minus the first token, with the parameters unchanged. |
| `CliApp.ScopeDropsOneToken` | cli/app.go:130-135 | In a resolution, each visited scope without flags, the zero command included, continues with the stream the scope before it left (the given one for the first) minus exactly the first token, and the parameters unchanged. |
| `CliApp.ResolveEntries` | cli/app.go:132-135 | Every flag of every visited command gets a parameter, with later scopes overriding earlier ones on a shared long form. |
| `CliApp.TracedEntries` | cli/app.go:129-143 | Along any trace from a well-formed command, the last scope's parameters are the starting ones overridden, scope by scope, by every visited command's flags. |
| `CliApp.Run` | cli/app.go:105-127 | The command name is the raw first argument, or the default when that is "" or absent. The visited commands are a trace from that command (the zero command when it is not registered), started on the stream and parameters the global flags left. The handler's context is the last scope's stream, which keeps the program name, and parameters. `Before` is called once and first, and then exactly one call follows: the deepest command's function, else `Fallback` with the name. |
| `CliApp.RunParameters` | cli/app.go:112-118 | The parameters hold exactly the global flags and the flags of every visited command, each later scope overriding earlier ones. |
| `CliApp.UnknownCommandFallsBack` | cli/app.go:111-126 | An unregistered name resolves to the zero command alone, so `Fallback` runs with that name; a nil `Fallback` is called, which is a panic. |
| `CliApp.FlagBeforeCommandFallsBack` | cli/app.go:106-111 | A global flag written before a registered command name is taken as the command name, so the fallback runs. |
| `CliApp.LeafCommandRuns` | cli/app.go:136-142 | A registered command without subcommands, named by the first argument, is the only one visited, and its function is dispatched to. |
| `CliApp.SubcommandRuns` | cli/app.go:105-143 | Without flags, `prog build sub` visits `build` then its subcommand `sub`, and dispatches to `sub`'s function. |
| `CliRegistry.Lookup` | cli/registry.go:5-7 | Yields the stored handler, or nil for a name never registered. |
| `CliRegistry.Register` | cli/registry.go:9-11 | The name then looks up as the new handler and is listed. No other name's lookup changes. |
| `CliRegistry.ReRegisterReplaces` | cli/registry.go:10 | Registering a name twice is the same as registering only the second handler. |
| `CliRegistry.LookupAfterRegistrations` | cli/registry.go:3-11 | From the empty table, a name looks up as the handler last registered under it, or nil. It is listed exactly when it was ever registered. |
| `CliRegistry.RegisterAll` | cli/registry.go:9-11 | After a batch of registrations the listed names are the old ones plus every name registered, and a name no registration mentions keeps its lookup. `LookupAfterRegistrations` gives the lookup of the names registered. |
| `CliRegistry.CommandNames` | cli/registry.go:13-21 | Lists every registered name exactly once, in unspecified order. |
| `StringSet.NewSet` | utils/set.go:7-9 | Has no members and length 0. |
| `StringSet.Add` | utils/set.go:19-21 | The value becomes a member and no other membership changes. The length grows by one exactly when the value was new. |
| `StringSet.Remove` | utils/set.go:23-25 | The value stops being a member and no other membership changes. Removing a non-member is a no-op, and the length drops by one exactly when the value was a member. |
| `StringSet.AddAll` | utils/set.go:13-16 | Adding the values of a slice one by one makes the members the old ones plus the slice's values. |
| `StringSet.NewSetFromSlice` | utils/set.go:11-17 | The members are exactly the values of the slice. |
| `StringSet.FromSliceLength` | utils/set.go:11-17 | The length is at most the slice length, and equal exactly when the slice has no repeated value. |
| `StringSet.AddRemove` | utils/set.go:19-25 | Adding and then removing a non-member gives back the set. Adding a member again changes nothing. |
| `StringSet.Values` | utils/set.go:27-35 | Lists every member exactly once, in unspecified order, with as many values as the set's length. |
| `UriTemplate.FindClose` | utils/uri_template.go:12 | The lazy body `(.+?)\}` ends at the first `}` that leaves a non-empty body with no line break, and at no earlier position. |
| `UriTemplate.MatchHead` | utils/uri_template.go:12 | A match at the head of the text has modifier "" or "?" and a non-empty body, and the matched text is `{` + modifier + body + `}`. No match means there is no `{`, or no body can close. |
| `UriTemplate.MatchHeadFirstClose` | utils/uri_template.go:12 | The pattern's choice: the modifier is "?" exactly when a body after `{?` can close, and the match ends where the shortest body after the modifier first closes. |
| `UriTemplate.MatchHeadShortest` | utils/uri_template.go:12 | `{?a}b}` matches as modifier "?", body "a", four characters: the body is the shortest one. |
| `UriTemplate.Parse` | utils/uri_template.go:12-13 | Reading a template yields at most one piece per character. `UnparseParse` (the pieces spell the template), `ParseLiteralPrefix`, `ParseExpression` and `MatchHeadFirstClose` state how it is read. |
| `UriTemplate.UnparseParse` | utils/uri_template.go:12-16 | Splitting a template into literal characters and expressions loses nothing: the pieces spell the template. |
| `UriTemplate.ParseLiteralPrefix` | utils/uri_template.go:12-16 | Text without `{` is read as literal characters, whatever follows it. |
| `UriTemplate.ParseExpression` | utils/uri_template.go:12 | `{` + m + body + `}` is read back as that expression when m is "" or "?", the body is non-empty and free of `}` and line breaks, and, for m = "", the body does not start with `?` (the pattern would read that `?` as the modifier). |
| `UriTemplate.Defined` | utils/uri_template.go:28-31 | The names kept by the query form are all defined. |
| `UriTemplate.DefinedAppend` | utils/uri_template.go:28-31 | Keeping defined names distributes over concatenation, so the kept names keep their order and repetitions. |
| `UriTemplate.DefinedSingle` | utils/uri_template.go:28-31 | A single name is kept exactly when it is defined. |
| `UriTemplate.DefinedMembers` | utils/uri_template.go:28-31 | A name is kept exactly when it is listed and defined. |
| `UriTemplate.DefinedPrefix` | utils/uri_template.go:28-34 | The simple form's stopping point: all names before it are defined, and the name at it is not. |
| `UriTemplate.QueryPairs` | utils/uri_template.go:43-46 | Each defined name of the query form becomes its escaped name, "=", and its escaped value, one pair per name. |
| `UriTemplate.PrefixValues` | utils/uri_template.go:27-46 | The simple form writes one escaped value per name before the first undefined one, each the value of that name. |
| `UriTemplate.QueryDefinedStep` | utils/uri_template.go:38-47 | In the query loop a defined name writes its separator and pair ahead of what the remaining names write. |
| `UriTemplate.SimpleDefinedStep` | utils/uri_template.go:38-47 | In the simple loop a defined name writes its separator and value ahead of what the remaining names write. |
| `UriTemplate.ExpandNames` | utils/uri_template.go:20-48 | A reported missing name comes from the simple form, is one of the names, and is undefined. `ExpandQueryNames` and `ExpandSimpleNames` give the loop's output in closed form. |
| `UriTemplate.ExpandQueryNames` | utils/uri_template.go:22-47 | The query loop writes the defined names' `name=value` pairs, escaped and joined by "&". They are led by "?", or by "&" once values were written. Undefined names are skipped, and no key is reported missing. |
| `UriTemplate.ExpandSimpleNames` | utils/uri_template.go:20-47 | The simple loop writes the escaped values up to the first undefined name, joined by ",", and reports that name as missing. |
| `UriTemplate.ExpandQuery` | utils/uri_template.go:17-50 | `{?a,b}` expands to "?" and the joined pairs of its defined names, or to "" when none is defined, and never fails. |
| `UriTemplate.ExpandSimple` | utils/uri_template.go:17-50 | `{a,b}` expands to the escaped values joined by ",". An undefined name stops it, keeps what came before, and is reported. |
| `UriTemplate.ExpandExpression` | utils/uri_template.go:17-50 | A reported missing name comes from the simple form, is one of the body's comma-separated names, and is undefined. `ExpandQuery` and `ExpandSimple` give the expansion of each form. |
| `UriTemplate.QuerySeparators` | utils/uri_template.go:38-47 | A query expansion is "?", the pairs, and one separator fewer than the number of pairs. |
| `UriTemplate.ExpandPieces` | utils/uri_template.go:16-51 | An error carried in is never cleared, and a reported name is either the one carried in or an undefined one. `ExpandPiecesMissing` shows that it is the last failing expression's. |
| `UriTemplate.ExpandPiecesMissing` | utils/uri_template.go:16-53 | An error in one expression does not stop the others. The reported error is that of the last failing expression, else the one carried in. |
| `UriTemplate.ExpandUriTemplate` | utils/uri_template.go:11-54 | A reported missing key is never defined in the parameters. `ExpandReportsLastMissing`, `NoExpressionUnchanged`, `TextAroundExpression` and `ExpandLiterals` state the output and the error. |
| `UriTemplate.ExpandReportsLastMissing` | utils/uri_template.go:11-53 | A template's error is the missing key of its last failing expression, and there is none when no expression fails. |
| `UriTemplate.ExpandLiterals` | utils/uri_template.go:16 | Literal characters are copied to the output unchanged. |
| `UriTemplate.NoExpressionUnchanged` | utils/uri_template.go:12-16 | A template without `{` is returned unchanged, with no error. |
| `UriTemplate.TextAroundExpression` | utils/uri_template.go:16-53 | The text around an expression is copied verbatim around its expansion, and the expression's error is the template's. |

## Left out

- `Args.ProgramName` (`path.Base` of the program name) is not modelled; the `path` package is not part of this model.
- `Args.Length`, `App.Commands`, `App.Flags`, `Command.Commands` and `Command.Flags` are plain accessors: modelled as field reads without a contract.
- `AppInstance` and its `sync.Once` singleton: initialisation of a process-wide variable, not logic.
- Go panics are not modelled; the inputs that cause them are excluded by `requires`:
  - `NewArgs` and `Shift` on an empty slice;
  - `Slice` past the end;
  - `Peek` with a negative index (its index is a `nat`).
- `Before` can mutate the `Cmd` it receives before the handler sees it. The model records only that `Before` is called, and hands the handler the context as built.
- Exit values returned by handlers and `Fallback`, `Cmd.Exit`, and the standard streams and environment of `Cmd` (cli/cmd.go) are left out. The context is the final stream and the parameters.
- `cli/colored_writer.go`, `api/client.go`, `pathname/pathname.go` and `utils/closing_tee_reader.go` are terminal, network and filesystem I/O, not part of this model.
- A flag's `Ftype` is an arbitrary Go value. Only "is it a `bool`" matters, so it is the two-valued `FlagType`.
- `url.QueryEscape` is the parameter `esc`: its percent-encoding table is not modelled.
- The error of `ExpandUriTemplate` is modelled as the missing key. The `%q`-quoted message text is not.
- `strings.ToLower` is modelled on ASCII letters only, so `Parameter.Bool` may disagree with Go on non-ASCII input that lower-cases to "t" or "true".
- Strings are sequences of characters, not UTF-8 bytes. Invalid UTF-8, which Go's regular expressions read as U+FFFD, is not modelled.
- The package-level registry map and the `Set`'s `map[string]bool` are modelled as values: a map to optional handlers, and a set.
- Go's map iteration order is the parameter `ord` of `CliApp.Run`. Proofs about parameters assume it visits each flag of a scope exactly once, which a Go `range` loop does.
- `CliApp.CommandRegisterCommand`: a Go `Command` is a value whose maps are references, so the copy a parent stores (cli/app.go:60, cli/app.go:85) shares them with the original. Once the original's `commands` map is non-nil, a later registration on the original also shows through the parent's copy. When the map was nil at that point, the later registration makes a new map, and the parent's copy does not see it. The model treats commands as values, so a registration never shows through an earlier copy.
- `CliApp.CommandRegisterFlag`: the same sharing holds for a command's `flags` map. A later flag registration on the original shows through a registered copy exactly when the map was non-nil when the copy was stored, and the model never shows it.
- `CliApp.AppRegisterCommand`: the same map sharing applies to commands registered on the application.
- `CliApp.Resolve`: the list of visited commands and the streams after each scope are added for stating properties. Go returns only the stream and the function.
