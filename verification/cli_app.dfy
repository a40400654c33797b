/** Commands, their registration, and the dispatch of one invocation
    (cli/app.go). */
module CliApp {
  import opened Wrappers
  import opened Collections
  import opened CliParameters
  import opened CliArgs

  /** A handler, `Before` hook or `Fallback` function: code outside the model,
      known only by identity. */
  type HandlerId = nat

  /** A command with its own flags and subcommands. The maps are only filled
      through registration, which keys commands by `name` and flags by
      `long`. */
  datatype Command = Command(
    name: string,
    info: string,
    help: string,
    parameter: string,
    handler: Option<HandlerId>,
    flags: map<string, Flag>,
    commands: map<string, Command>)

  /** What a lookup of an unregistered name in a Go map of commands yields. */
  const ZeroCommand := Command("", "", "", "", None, map[], map[])

  /** The application: top-level commands and flags, the default command
      name, and the optional hooks. */
  datatype App = App(
    defaultCommandName: string,
    version: string,
    commands: map<string, Command>,
    fallback: Option<HandlerId>,
    before: Option<HandlerId>,
    flags: map<string, Flag>)

  // ---------------------------------------------------------------------
  // Registration.
  // ---------------------------------------------------------------------

  /** No later item has the key of item `i`. */
  predicate LastOfKey<T>(items: seq<T>, key: T -> string, i: int)
    requires 0 <= i < |items|
  {
    forall j :: i < j < |items| ==> key(items[j]) != key(items[i])
  }

  /** Some item has key `k`. */
  predicate HasKey<T>(items: seq<T>, key: T -> string, k: string) {
    exists i :: 0 <= i < |items| && key(items[i]) == k
  }

  /** `r` is `m` after registering `items` in order under `key`: the keys are
      the old ones and the new ones, a key takes the last item registered
      under it, and every other entry is unchanged. */
  ghost predicate Registered<T>(m: map<string, T>, items: seq<T>, key: T -> string, r: map<string, T>) {
    && (forall k :: k in r <==> k in m || HasKey(items, key, k))
    && (forall i :: 0 <= i < |items| && LastOfKey(items, key, i) ==> key(items[i]) in r && r[key(items[i])] == items[i])
    && (forall k :: k in m && !HasKey(items, key, k) ==> r[k] == m[k])
  }

  /** The registration loop shared by the four `Register...` methods. */
  function Enter<T>(m: map<string, T>, items: seq<T>, key: T -> string): (r: map<string, T>)
    ensures Registered(m, items, key, r)
    decreases |items|
  {
    if |items| == 0 then m
    else
      var r := Enter(m[key(items[0]) := items[0]], items[1..], key);
      EnterStep(m, items, key, r);
      r
  }

  /** Registering the first item and then the rest is registering them all. */
  lemma EnterStep<T>(m: map<string, T>, items: seq<T>, key: T -> string, r: map<string, T>)
    requires |items| > 0
    requires Registered(m[key(items[0]) := items[0]], items[1..], key, r)
    ensures Registered(m, items, key, r)
  {
    var first, rest := items[0], items[1..];
    forall k
      ensures HasKey(items, key, k) <==> k == key(first) || HasKey(rest, key, k)
    {
      if HasKey(items, key, k) {
        var i :| 0 <= i < |items| && key(items[i]) == k;
        if i > 0 {
          assert key(rest[i - 1]) == k;
        }
      }
      if HasKey(rest, key, k) {
        var i :| 0 <= i < |rest| && key(rest[i]) == k;
        assert key(items[i + 1]) == k;
      }
      if k == key(first) {
        assert key(items[0]) == k;
      }
    }
    forall i | 0 <= i < |items| && LastOfKey(items, key, i)
      ensures key(items[i]) in r && r[key(items[i])] == items[i]
    {
      if i == 0 {
        forall j | 0 <= j < |rest|
          ensures key(rest[j]) != key(first)
        {
          assert rest[j] == items[j + 1];
        }
      } else {
        assert rest[i - 1] == items[i];
        forall j | i - 1 < j < |rest|
          ensures key(rest[j]) != key(rest[i - 1])
        {
          assert rest[j] == items[j + 1];
        }
        assert LastOfKey(rest, key, i - 1);
      }
    }
  }

  function CommandKey(c: Command): string {
    c.name
  }

  function FlagKey(f: Flag): string {
    f.long
  }

  /** `App.RegisterCommand`: commands keyed by name, last one wins. */
  function AppRegisterCommand(a: App, cs: seq<Command>): (r: App)
    ensures Registered(a.commands, cs, CommandKey, r.commands)
    ensures r.(commands := a.commands) == a
  {
    a.(commands := Enter(a.commands, cs, CommandKey))
  }

  /** `App.RegisterFlag`: flags keyed by long form, last one wins. */
  function AppRegisterFlag(a: App, fs: seq<Flag>): (r: App)
    ensures Registered(a.flags, fs, FlagKey, r.flags)
    ensures r.(flags := a.flags) == a
  {
    a.(flags := Enter(a.flags, fs, FlagKey))
  }

  /** `Command.RegisterCommand`: subcommands keyed by name, last one wins. */
  function CommandRegisterCommand(c: Command, cs: seq<Command>): (r: Command)
    ensures Registered(c.commands, cs, CommandKey, r.commands)
    ensures r.(commands := c.commands) == c
  {
    c.(commands := Enter(c.commands, cs, CommandKey))
  }

  /** `Command.RegisterFlag`: flags keyed by long form, last one wins. */
  function CommandRegisterFlag(c: Command, fs: seq<Flag>): (r: Command)
    ensures Registered(c.flags, fs, FlagKey, r.flags)
    ensures r.(flags := c.flags) == c
  {
    c.(flags := Enter(c.flags, fs, FlagKey))
  }

  /** Every flag is stored under its long form. */
  predicate FlagsKeyedByLong(flags: map<string, Flag>) {
    forall k :: k in flags ==> flags[k].long == k
  }

  /** What registration guarantees of a command tree: flags under their long
      form and subcommands under their name, all the way down. */
  predicate WellFormed(c: Command)
    decreases c
  {
    && FlagsKeyedByLong(c.flags)
    && forall k :: k in c.commands ==> c.commands[k].name == k && WellFormed(c.commands[k])
  }

  predicate WellFormedApp(a: App) {
    && FlagsKeyedByLong(a.flags)
    && forall k :: k in a.commands ==> a.commands[k].name == k && WellFormed(a.commands[k])
  }

  /** Each entry after registration is the old entry under a key no item
      has, or an item registered under its own key. */
  lemma EnterOrigin<T>(m: map<string, T>, items: seq<T>, key: T -> string, k: string)
    requires k in Enter(m, items, key)
    ensures var r := Enter(m, items, key);
      || (k in m && r[k] == m[k])
      || (exists i :: 0 <= i < |items| && key(items[i]) == k && r[k] == items[i])
  {
    if HasKey(items, key, k) {
      var i :| 0 <= i < |items| && key(items[i]) == k && LastOfKey(items, key, i) by {
        LastIndexExists(items, key, k);
      }
    }
  }

  /** Registration on a command keeps its maps keyed as the Go code keys
      them. */
  lemma RegistrationKeepsWellFormed(c: Command, cs: seq<Command>, fs: seq<Flag>)
    requires WellFormed(c)
    requires forall i :: 0 <= i < |cs| ==> WellFormed(cs[i])
    ensures WellFormed(CommandRegisterFlag(CommandRegisterCommand(c, cs), fs))
  {
    var c2 := CommandRegisterFlag(CommandRegisterCommand(c, cs), fs);
    forall k | k in c2.commands
      ensures c2.commands[k].name == k && WellFormed(c2.commands[k])
    {
      EnterOrigin(c.commands, cs, CommandKey, k);
    }
    forall k | k in c2.flags
      ensures c2.flags[k].long == k
    {
      EnterOrigin(c.flags, fs, FlagKey, k);
    }
  }

  /** Registration on the application keeps its maps keyed as the Go code
      keys them. */
  lemma AppRegistrationKeepsWellFormed(a: App, cs: seq<Command>, fs: seq<Flag>)
    requires WellFormedApp(a)
    requires forall i :: 0 <= i < |cs| ==> WellFormed(cs[i])
    ensures WellFormedApp(AppRegisterFlag(AppRegisterCommand(a, cs), fs))
  {
    var a2 := AppRegisterFlag(AppRegisterCommand(a, cs), fs);
    forall k | k in a2.commands
      ensures a2.commands[k].name == k && WellFormed(a2.commands[k])
    {
      EnterOrigin(a.commands, cs, CommandKey, k);
    }
    forall k | k in a2.flags
      ensures a2.flags[k].long == k
    {
      EnterOrigin(a.flags, fs, FlagKey, k);
    }
  }

  /** A key that some item has is the key of a last such item. */
  lemma LastIndexExists<T>(items: seq<T>, key: T -> string, k: string)
    requires HasKey(items, key, k)
    ensures exists i :: 0 <= i < |items| && key(items[i]) == k && LastOfKey(items, key, i)
  {
    var i :| 0 <= i < |items| && key(items[i]) == k;
    while !LastOfKey(items, key, i)
      invariant 0 <= i < |items| && key(items[i]) == k
      decreases |items| - i
    {
      var j :| i < j < |items| && key(items[j]) == key(items[i]);
      i := j;
    }
  }

  // ---------------------------------------------------------------------
  // Flag extraction for one scope.
  // ---------------------------------------------------------------------

  /** The order in which Go's `range` visits a scope's flag map, which the
      language leaves open: given the depth of the scope (0 for the global
      flags, 1 for the top-level command, and so on) and its flags, the keys
      in visiting order. */
  type FlagOrder = (nat, map<string, Flag>) -> seq<string>

  /** An order that visits every flag of every scope exactly once. */
  ghost predicate ValidOrder(ord: FlagOrder) {
    forall d, m :: IsEnumeration(ord(d, m), m.Keys)
  }

  /** The flag loop of `Run` and `command`: extract each flag in turn from
      the stream left by the previous one and store its parameter. A key that
      names no flag is skipped, so with no flag listed the stream and the
      parameters are left as they are; stored parameters are never dropped. */
  function ExtractAll(args: Args, params: Parameters, flags: map<string, Flag>, keys: seq<string>): (r: (Args, Parameters))
    ensures r.0.programName == args.programName
    decreases |keys|
  {
    if |keys| == 0 then (args, params)
    else if keys[0] in flags then
      var (p, a) := Extract(args, flags[keys[0]]);
      ExtractAll(a, AddParameter(params, p), flags, keys[1..])
    else
      ExtractAll(args, params, flags, keys[1..])
  }

  /** Keys that name no flag are skipped: with none of the listed keys a
      flag, the stream and the parameters come back as they were given. */
  lemma {:induction false} ExtractAllUnlisted(args: Args, params: Parameters, flags: map<string, Flag>, keys: seq<string>)
    requires forall i :: 0 <= i < |keys| ==> keys[i] !in flags
    ensures ExtractAll(args, params, flags, keys) == (args, params)
    decreases |keys|
  {
    if |keys| > 0 {
      ExtractAllUnlisted(args, params, flags, keys[1..]);
    }
  }

  /** The flag each stored parameter was extracted for. */
  function FlagsOf(ps: Parameters): map<string, Flag> {
    map k | k in ps.entries :: ps.entries[k].flag
  }

  /** The flags of `flags` whose key is listed. */
  function Listed(flags: map<string, Flag>, keys: seq<string>): map<string, Flag> {
    map k | k in flags && k in keys :: flags[k]
  }

  /** After a scope's loop, every listed flag has a parameter of its own,
      provided or not, replacing any earlier parameter under the same name. */
  lemma {:induction false} ExtractAllEntries(args: Args, params: Parameters, flags: map<string, Flag>, keys: seq<string>)
    requires FlagsKeyedByLong(flags)
    ensures FlagsOf(ExtractAll(args, params, flags, keys).1) == FlagsOf(params) + Listed(flags, keys)
    decreases |keys|
  {
    if |keys| > 0 {
      var rest := keys[1..];
      assert keys == [keys[0]] + rest;
      if keys[0] in flags {
        var e := Extract(args, flags[keys[0]]);
        ExtractAllEntries(e.1, AddParameter(params, e.0), flags, rest);
        FlagsOfAdd(params, e.0);
        ListedCons(FlagsOf(params), flags, keys[0], rest);
      } else {
        ExtractAllEntries(args, params, flags, rest);
        assert Listed(flags, rest) == Listed(flags, keys);
      }
    } else {
      assert Listed(flags, keys) == map[];
      assert FlagsOf(params) + map[] == FlagsOf(params);
    }
  }

  /** Storing a parameter records its flag under the flag's long form. */
  lemma FlagsOfAdd(ps: Parameters, p: Parameter)
    ensures FlagsOf(AddParameter(ps, p)) == FlagsOf(ps)[p.flag.long := p.flag]
  {
  }

  /** Storing a listed flag and then the flags listed after it is storing
      every flag of the whole list. */
  lemma ListedCons(m: map<string, Flag>, flags: map<string, Flag>, k: string, rest: seq<string>)
    requires FlagsKeyedByLong(flags) && k in flags
    ensures m[flags[k].long := flags[k]] + Listed(flags, rest) == m + Listed(flags, [k] + rest)
  {
    assert flags[k].long == k;
  }

  /** With an order that lists the whole scope, the scope's flags are all
      stored, on top of what was there. */
  lemma ExtractScopeEntries(args: Args, params: Parameters, flags: map<string, Flag>, keys: seq<string>)
    requires FlagsKeyedByLong(flags)
    requires IsEnumeration(keys, flags.Keys)
    ensures FlagsOf(ExtractAll(args, params, flags, keys).1) == FlagsOf(params) + flags
  {
    ExtractAllEntries(args, params, flags, keys);
    assert Listed(flags, keys) == flags;
  }

  /** Extraction order matters, contrary to the idea that a scope's flags can
      be taken in any order: with a value flag `-a` and a boolean flag `-b`,
      `-a -b` gives `-a` the value "-b" when `-a` goes first, and gives `-b`
      the value "true" when `-b` goes first. */
  lemma FlagOrderMatters(args: Args)
    requires args.argv == ["-a", "-b"]
    ensures var fa := Flag("-a", "--alpha", "", ValueType);
      var fb := Flag("-b", "--beta", "", BoolType);
      var flags := map["--alpha" := fa, "--beta" := fb];
      var ab := ExtractAll(args, NoParameters, flags, ["--alpha", "--beta"]).1;
      var ba := ExtractAll(args, NoParameters, flags, ["--beta", "--alpha"]).1;
      && ab.entries["--alpha"].values == ["-b"] && !ab.entries["--beta"].provided
      && ba.entries["--alpha"].values == [] && ba.entries["--alpha"].provided
      && ba.entries["--beta"].values == ["true"] && ba.entries["--beta"].provided
  {
    var fa := Flag("-a", "--alpha", "", ValueType);
    var fb := Flag("-b", "--beta", "", BoolType);
    var toks := args.argv;
    assert forall t :: t in toks ==> !IsShortBundle(t);
    ExplodeWithoutBundles(toks);
    ClassifyNotLong(fa, "-a");
    ClassifyNotLong(fa, "-b");
    ClassifyNotLong(fb, "-a");
    ClassifyNotLong(fb, "-b");
    // `-a` first: it takes `-b` as its value, and nothing is left for `-b`.
    assert toks[1..][1..] == [];
    assert Occurrences(fa, toks) == Extraction(["-b"], true, []);
    ExtractIsOccurrences(args, fa);
    var rest := Extract(args, fa).1;
    assert rest.argv == [];
    ExtractIsOccurrences(rest, fb);
    // `-b` first: it is removed, and `-a` is left last with no value.
    assert Occurrences(fb, [toks[1]]) == Extraction(["true"], true, []);
    assert Occurrences(fb, toks) == Extraction(["true"], true, ["-a"]);
    ExtractIsOccurrences(args, fb);
    var rest2 := Extract(args, fb).1;
    assert rest2.argv == ["-a"];
    ExplodeWithoutBundles(rest2.argv);
    assert Occurrences(fa, ["-a"]) == Extraction([], true, []);
    ExtractIsOccurrences(rest2, fa);
  }

  // ---------------------------------------------------------------------
  // Resolution of the command tree and dispatch.
  // ---------------------------------------------------------------------

  /** One scope of `App.command`: drop the token that named the command, then
      extract the command's flags in the order Go's `range` visits them. A
      command without flags only drops that token. */
  function ScopeStep(c: Command, args: Args, params: Parameters, ord: FlagOrder, depth: nat): (r: (Args, Parameters))
    ensures r.0.programName == args.programName
  {
    ExtractAll(SubcommandArgs(args, c.name), params, c.flags, ord(depth, c.flags))
  }

  /** The result of `command`: the final stream and parameters, the handler
      of the deepest command reached, the commands visited, outermost first,
      and for each of them the stream and the parameters once its flags were
      extracted (the last three are not part of the Go result; they record
      the recursion). */
  datatype Resolution = Resolution(
    args: Args,
    params: Parameters,
    handler: Option<HandlerId>,
    visited: seq<Command>,
    after: seq<Args>,
    scopes: seq<Parameters>)

  /** The commands' flags in visiting order, later scopes overriding earlier
      ones on a shared long form. */
  function ScopeFlags(visited: seq<Command>): map<string, Flag>
    decreases |visited|
  {
    if |visited| == 0 then map[] else visited[0].flags + ScopeFlags(visited[1..])
  }

  /** The descent rule: each visited command after the first is the child of
      the one before it named by the first token left once the parent's flags
      were extracted, and the last one has no child named by it. */
  predicate Descends(visited: seq<Command>, after: seq<Args>)
    requires |visited| == |after| > 0
  {
    && (forall i :: 0 <= i < |visited| - 1 ==>
          Peek(after[i], 0) in visited[i].commands && visited[i + 1] == visited[i].commands[Peek(after[i], 0)])
    && Peek(after[|after| - 1], 0) !in visited[|visited| - 1].commands
  }

  /** A trace of `command` from `c`: scope 0 is `c` applied to the stream
      and parameters given, each later scope is applied to what the one
      before it left, and the commands follow the descent rule. */
  predicate Traced(c: Command, args: Args, params: Parameters, ord: FlagOrder, depth: nat,
                   visited: seq<Command>, after: seq<Args>, scopes: seq<Parameters>)
  {
    && |visited| == |after| == |scopes| > 0
    && visited[0] == c
    && (after[0], scopes[0]) == ScopeStep(c, args, params, ord, depth)
    && (forall i :: 0 < i < |visited| ==>
          (after[i], scopes[i]) == ScopeStep(visited[i], after[i - 1], scopes[i - 1], ord, depth + i))
    && Descends(visited, after)
  }

  /** `App.command`: drop one token for this scope, extract the scope's flags,
      then descend if the next token names a subcommand. The resolution is a
      trace from `c`; it ends with the stream and parameters the last scope
      left, and runs the deepest command's handler. */
  function Resolve(c: Command, args: Args, params: Parameters, ord: FlagOrder, depth: nat): (r: Resolution)
    ensures Traced(c, args, params, ord, depth, r.visited, r.after, r.scopes)
    ensures r.args == r.after[|r.after| - 1] && r.params == r.scopes[|r.scopes| - 1]
    ensures r.handler == r.visited[|r.visited| - 1].handler
    ensures r.args.programName == args.programName
    decreases c
  {
    var (a2, p2) := ScopeStep(c, args, params, ord, depth);
    var sub := Peek(a2, 0);
    if sub in c.commands then
      var r := Resolve(c.commands[sub], a2, p2, ord, depth + 1);
      TracedCons(c, args, params, ord, depth, r.visited, r.after, r.scopes);
      Resolution(r.args, r.params, r.handler, [c] + r.visited, [a2] + r.after, [p2] + r.scopes)
    else
      Resolution(a2, p2, c.handler, [c], [a2], [p2])
  }

  /** Stepping into the child named by the next token extends a trace. */
  lemma TracedCons(c: Command, args: Args, params: Parameters, ord: FlagOrder, depth: nat,
                   visited: seq<Command>, after: seq<Args>, scopes: seq<Parameters>)
    requires var (a, p) := ScopeStep(c, args, params, ord, depth);
      && Peek(a, 0) in c.commands
      && Traced(c.commands[Peek(a, 0)], a, p, ord, depth + 1, visited, after, scopes)
    ensures var (a, p) := ScopeStep(c, args, params, ord, depth);
      Traced(c, args, params, ord, depth, [c] + visited, [a] + after, [p] + scopes)
  {
    var (a, p) := ScopeStep(c, args, params, ord, depth);
    var vs, ss, ps := [c] + visited, [a] + after, [p] + scopes;
    forall i | 0 < i < |vs|
      ensures (ss[i], ps[i]) == ScopeStep(vs[i], ss[i - 1], ps[i - 1], ord, depth + i)
    {
      assert vs[i] == visited[i - 1] && ss[i] == after[i - 1] && ps[i] == scopes[i - 1];
      if i > 1 {
        assert ss[i - 1] == after[i - 2] && ps[i - 1] == scopes[i - 2];
      }
    }
    DescendsCons(c, a, visited, after);
  }

  /** Stepping into the child named by the next token extends a descent. */
  lemma DescendsCons(c: Command, a: Args, visited: seq<Command>, after: seq<Args>)
    requires |visited| == |after| > 0 && Descends(visited, after)
    requires Peek(a, 0) in c.commands && visited[0] == c.commands[Peek(a, 0)]
    ensures Descends([c] + visited, [a] + after)
  {
    var vs, ss := [c] + visited, [a] + after;
    forall i | 0 <= i < |vs| - 1
      ensures Peek(ss[i], 0) in vs[i].commands && vs[i + 1] == vs[i].commands[Peek(ss[i], 0)]
    {
      if i > 0 {
        assert vs[i] == visited[i - 1] && vs[i + 1] == visited[i] && ss[i] == after[i - 1];
      }
    }
    assert vs[|vs| - 1] == visited[|visited| - 1] && ss[|ss| - 1] == after[|after| - 1];
  }

  /** A trace of more than one scope continues, from its second command, with
      a trace of the rest. */
  lemma TracedTail(c: Command, args: Args, params: Parameters, ord: FlagOrder, depth: nat,
                   visited: seq<Command>, after: seq<Args>, scopes: seq<Parameters>)
    requires Traced(c, args, params, ord, depth, visited, after, scopes) && |visited| > 1
    ensures Traced(visited[1], after[0], scopes[0], ord, depth + 1, visited[1..], after[1..], scopes[1..])
  {
    var vs, ss, ps := visited[1..], after[1..], scopes[1..];
    assert (ss[0], ps[0]) == ScopeStep(vs[0], after[0], scopes[0], ord, depth + 1);
    forall i | 0 < i < |vs|
      ensures (ss[i], ps[i]) == ScopeStep(vs[i], ss[i - 1], ps[i - 1], ord, depth + 1 + i)
    {
      assert vs[i] == visited[i + 1] && ss[i] == after[i + 1] && ps[i] == scopes[i + 1];
      assert ss[i - 1] == after[i] && ps[i - 1] == scopes[i];
    }
    forall i | 0 <= i < |vs| - 1
      ensures Peek(ss[i], 0) in vs[i].commands && vs[i + 1] == vs[i].commands[Peek(ss[i], 0)]
    {
      assert vs[i] == visited[i + 1] && vs[i + 1] == visited[i + 2] && ss[i] == after[i + 1];
    }
    assert vs[|vs| - 1] == visited[|visited| - 1] && ss[|ss| - 1] == after[|after| - 1];
  }

  /** There is only one trace from a command: the descent rule decides where
      it stops, and each scope's step is a function of the one before. */
  lemma {:induction false} TracedUnique(c: Command, args: Args, params: Parameters, ord: FlagOrder, depth: nat,
                     v1: seq<Command>, a1: seq<Args>, s1: seq<Parameters>,
                     v2: seq<Command>, a2: seq<Args>, s2: seq<Parameters>)
    requires Traced(c, args, params, ord, depth, v1, a1, s1)
    requires Traced(c, args, params, ord, depth, v2, a2, s2)
    ensures v1 == v2 && a1 == a2 && s1 == s2
    decreases |v1|
  {
    if |v1| > 1 && |v2| > 1 {
      TracedTail(c, args, params, ord, depth, v1, a1, s1);
      TracedTail(c, args, params, ord, depth, v2, a2, s2);
      TracedUnique(v1[1], a1[0], s1[0], ord, depth + 1, v1[1..], a1[1..], s1[1..], v2[1..], a2[1..], s2[1..]);
      assert v1 == [v1[0]] + v1[1..] && v2 == [v2[0]] + v2[1..];
      assert a1 == [a1[0]] + a1[1..] && a2 == [a2[0]] + a2[1..];
      assert s1 == [s1[0]] + s1[1..] && s2 == [s2[0]] + s2[1..];
    }
  }

  /** A scope without flags, the zero command included, leaves the stream it
      was given minus its first token, and the parameters as they were. */
  lemma FlaglessStep(c: Command, args: Args, params: Parameters, ord: FlagOrder, depth: nat)
    requires ValidOrder(ord) && c.flags == map[]
    ensures ScopeStep(c, args, params, ord, depth).0.argv == if |args.argv| > 0 then args.argv[1..] else []
    ensures ScopeStep(c, args, params, ord, depth).1 == params
  {
    var keys := ord(depth, c.flags);
    assert IsEnumeration(keys, c.flags.Keys);
    EnumerationLength(keys, c.flags.Keys);
  }

  /** In any trace, a scope without flags leaves the stream the scope before
      it left (the stream given, for the first) minus its first token, and
      the parameters unchanged. */
  lemma TracedFlagless(c: Command, args: Args, params: Parameters, ord: FlagOrder, depth: nat,
                       visited: seq<Command>, after: seq<Args>, scopes: seq<Parameters>, i: nat)
    requires ValidOrder(ord) && Traced(c, args, params, ord, depth, visited, after, scopes)
    requires i < |visited| && visited[i].flags == map[]
    ensures var prev := if i == 0 then args else after[i - 1];
      && after[i].argv == (if |prev.argv| > 0 then prev.argv[1..] else [])
      && scopes[i] == (if i == 0 then params else scopes[i - 1])
  {
    if i == 0 {
      FlaglessStep(c, args, params, ord, depth);
    } else {
      FlaglessStep(visited[i], after[i - 1], scopes[i - 1], ord, depth + i);
    }
  }

  /** A visited scope without flags, the zero command included, leaves the
      stream the scope before it left (the stream given, for the first) minus
      its first token, and the parameters unchanged. */
  lemma ScopeDropsOneToken(c: Command, args: Args, params: Parameters, ord: FlagOrder, depth: nat, i: nat)
    requires ValidOrder(ord)
    requires var r := Resolve(c, args, params, ord, depth);
      i < |r.visited| && r.visited[i].flags == map[]
    ensures var r := Resolve(c, args, params, ord, depth);
      var prev := if i == 0 then args else r.after[i - 1];
      && r.after[i].argv == (if |prev.argv| > 0 then prev.argv[1..] else [])
      && r.scopes[i] == (if i == 0 then params else r.scopes[i - 1])
  {
    var r := Resolve(c, args, params, ord, depth);
    TracedFlagless(c, args, params, ord, depth, r.visited, r.after, r.scopes, i);
  }

  /** Every flag of every visited scope ends up with a parameter, a later
      scope's flag replacing an earlier one with the same long form. */
  lemma {:induction false} ResolveEntries(c: Command, args: Args, params: Parameters, ord: FlagOrder, depth: nat)
    requires ValidOrder(ord) && WellFormed(c)
    ensures var r := Resolve(c, args, params, ord, depth);
      FlagsOf(r.params) == FlagsOf(params) + ScopeFlags(r.visited)
  {
    var r := Resolve(c, args, params, ord, depth);
    TracedEntries(c, args, params, ord, depth, r.visited, r.after, r.scopes);
  }

  /** Along any trace, the last scope's parameters hold the flags of every
      visited command on top of the starting ones. */
  lemma {:induction false} TracedEntries(c: Command, args: Args, params: Parameters, ord: FlagOrder, depth: nat,
                      visited: seq<Command>, after: seq<Args>, scopes: seq<Parameters>)
    requires ValidOrder(ord) && WellFormed(c)
    requires Traced(c, args, params, ord, depth, visited, after, scopes)
    ensures FlagsOf(scopes[|scopes| - 1]) == FlagsOf(params) + ScopeFlags(visited)
  {
    TracedFirstEntries(c, args, params, ord, depth, visited, after, scopes);
    forall i | 0 < i < |visited|
      ensures FlagsOf(scopes[i]) == FlagsOf(scopes[i - 1]) + visited[i].flags
    {
      DescendsWellFormed(visited, after, i);
      TracedStepEntries(c, args, params, ord, depth, visited, after, scopes, i);
    }
    ChainEntries(FlagsOf(params), visited, scopes);
  }

  /** The first scope of a trace adds the starting command's flags. */
  lemma TracedFirstEntries(c: Command, args: Args, params: Parameters, ord: FlagOrder, depth: nat,
                           visited: seq<Command>, after: seq<Args>, scopes: seq<Parameters>)
    requires ValidOrder(ord) && FlagsKeyedByLong(c.flags)
    requires Traced(c, args, params, ord, depth, visited, after, scopes)
    ensures FlagsOf(scopes[0]) == FlagsOf(params) + visited[0].flags
  {
    StepEntries(c, args, params, ord, depth, scopes[0]);
  }

  /** Each later scope of a trace adds its command's flags to what the scope
      before it left. */
  lemma TracedStepEntries(c: Command, args: Args, params: Parameters, ord: FlagOrder, depth: nat,
                          visited: seq<Command>, after: seq<Args>, scopes: seq<Parameters>, i: nat)
    requires ValidOrder(ord) && Traced(c, args, params, ord, depth, visited, after, scopes)
    requires 0 < i < |visited| && FlagsKeyedByLong(visited[i].flags)
    ensures FlagsOf(scopes[i]) == FlagsOf(scopes[i - 1]) + visited[i].flags
  {
    TracedAt(c, args, params, ord, depth, visited, after, scopes, i);
    StepEntries(visited[i], after[i - 1], scopes[i - 1], ord, depth + i, scopes[i]);
  }

  /** `ScopeEntries`, for parameters known to be what the scope left. */
  lemma StepEntries(c: Command, args: Args, params: Parameters, ord: FlagOrder, depth: nat, left: Parameters)
    requires ValidOrder(ord) && FlagsKeyedByLong(c.flags)
    requires left == ScopeStep(c, args, params, ord, depth).1
    ensures FlagsOf(left) == FlagsOf(params) + c.flags
  {
    ScopeEntries(c, args, params, ord, depth);
  }

  /** The parameters a later scope of a trace leaves. */
  lemma TracedAt(c: Command, args: Args, params: Parameters, ord: FlagOrder, depth: nat,
                 visited: seq<Command>, after: seq<Args>, scopes: seq<Parameters>, i: nat)
    requires Traced(c, args, params, ord, depth, visited, after, scopes)
    requires 0 < i < |visited|
    ensures scopes[i] == ScopeStep(visited[i], after[i - 1], scopes[i - 1], ord, depth + i).1
  {
  }

  /** Every command of a descent from a well-formed command is well-formed. */
  lemma {:induction false} DescendsWellFormed(visited: seq<Command>, after: seq<Args>, i: nat)
    requires |visited| == |after| > 0 && Descends(visited, after) && WellFormed(visited[0])
    requires i < |visited|
    ensures WellFormed(visited[i])
    decreases i
  {
    if i > 0 {
      DescendsWellFormed(visited, after, i - 1);
      assert visited[i] == visited[i - 1].commands[Peek(after[i - 1], 0)];
    }
  }

  /** Scopes that each store their command's flags on top of the scope
      before end with all of those flags on top of where the chain started. */
  lemma {:induction false} ChainEntries(start: map<string, Flag>, visited: seq<Command>, scopes: seq<Parameters>)
    requires |visited| == |scopes| > 0
    requires FlagsOf(scopes[0]) == start + visited[0].flags
    requires forall i :: 0 < i < |visited| ==> FlagsOf(scopes[i]) == FlagsOf(scopes[i - 1]) + visited[i].flags
    ensures FlagsOf(scopes[|scopes| - 1]) == start + ScopeFlags(visited)
    decreases |visited|
  {
    if |visited| == 1 {
      assert ScopeFlags(visited) == visited[0].flags + ScopeFlags(visited[1..]);
      assert visited[0].flags + map[] == visited[0].flags;
    } else {
      var vs, ss := visited[1..], scopes[1..];
      forall i | 0 < i < |vs|
        ensures FlagsOf(ss[i]) == FlagsOf(ss[i - 1]) + vs[i].flags
      {
        assert ss[i] == scopes[i + 1] && ss[i - 1] == scopes[i] && vs[i] == visited[i + 1];
      }
      assert FlagsOf(ss[0]) == FlagsOf(scopes[0]) + vs[0].flags by {
        assert ss[0] == scopes[1] && vs[0] == visited[1];
      }
      ChainEntries(FlagsOf(scopes[0]), vs, ss);
      assert ss[|ss| - 1] == scopes[|scopes| - 1];
      MapUnionAssoc(start, visited[0].flags, ScopeFlags(vs));
    }
  }

  /** One scope stores a parameter for each of the command's flags. */
  lemma ScopeEntries(c: Command, args: Args, params: Parameters, ord: FlagOrder, depth: nat)
    requires ValidOrder(ord) && FlagsKeyedByLong(c.flags)
    ensures FlagsOf(ScopeStep(c, args, params, ord, depth).1) == FlagsOf(params) + c.flags
  {
    var keys := ord(depth, c.flags);
    assert IsEnumeration(keys, c.flags.Keys);
    ExtractScopeEntries(SubcommandArgs(args, c.name), params, c.flags, keys);
  }

  /** Map union, right-biased, is associative. */
  lemma MapUnionAssoc<K, V>(a: map<K, V>, b: map<K, V>, c: map<K, V>)
    ensures (a + b) + c == a + (b + c)
  {
  }

  /** The execution context handed to the handler: the final stream and the
      parameters (standard output, standard error and the environment are
      left out). */
  datatype Cmd = Cmd(args: Args, parameters: Parameters)

  /** One call made by `Run`, in order. */
  datatype Call =
    | CallBefore(hook: HandlerId, cmdName: string)
    | CallHandler(handler: HandlerId)
    | CallFallback(hook: HandlerId, cmdName: string)
    | NilFallbackPanic(cmdName: string)      // Go calls a nil `Fallback`

  /** What `Run` does: the context built, the command name passed to the
      hooks, the commands visited with the stream and parameters each scope
      left, and the calls made. */
  datatype Outcome = Outcome(cmd: Cmd, cmdName: string, visited: seq<Command>, after: seq<Args>,
                             scopes: seq<Parameters>, calls: seq<Call>)

  /** The final call: the deepest command's function if it has one, else the
      fallback with the top-level name. */
  function Dispatch(handler: Option<HandlerId>, fallback: Option<HandlerId>, cmdName: string): Call {
    match handler
    case Some(h) => CallHandler(h)
    case None =>
      match fallback
      case Some(fb) => CallFallback(fb, cmdName)
      case None => NilFallbackPanic(cmdName)
  }

  /** The calls `Run` makes once the tree is resolved: `Before`, if set,
      then the dispatch. */
  function Calls(app: App, cmdName: string, handler: Option<HandlerId>): (calls: seq<Call>)
    ensures |calls| == if app.before.Some? then 2 else 1
    ensures app.before.Some? ==> calls[0] == CallBefore(app.before.value, cmdName)
    ensures calls[|calls| - 1] == Dispatch(handler, app.fallback, cmdName)
  {
    (if app.before.Some? then [CallBefore(app.before.value, cmdName)] else [])
      + [Dispatch(handler, app.fallback, cmdName)]
  }

  /** `App.Run`. The command name is the raw first token, read before the
      global flags are extracted, or the default name when that token is ""
      or absent. The global flags are extracted first, then the tree is
      resolved from the command of that name (the zero command when it is not
      registered), starting from the stream and parameters the global flags
      left. The handler gets the stream and parameters the last scope left.
      `Before` runs once, then exactly one of handler and fallback. */
  function Run(app: App, argv: seq<string>, ord: FlagOrder): (r: Outcome)
    requires |argv| > 0
    ensures r.cmdName == if |argv| > 1 && argv[1] != "" then argv[1] else app.defaultCommandName
    ensures |r.visited| >= 1
    ensures r.visited[0] == if r.cmdName in app.commands then app.commands[r.cmdName] else ZeroCommand
    ensures var g := ExtractAll(NewArgs(argv), NoParameters, app.flags, ord(0, app.flags));
      Traced(r.visited[0], g.0, g.1, ord, 1, r.visited, r.after, r.scopes)
    ensures r.cmd == Cmd(r.after[|r.after| - 1], r.scopes[|r.scopes| - 1])
    ensures r.cmd.args.programName == argv[0]
    ensures |r.calls| == if app.before.Some? then 2 else 1
    ensures app.before.Some? ==> r.calls[0] == CallBefore(app.before.value, r.cmdName)
    ensures r.calls[|r.calls| - 1] == Dispatch(r.visited[|r.visited| - 1].handler, app.fallback, r.cmdName)
  {
    var args := NewArgs(argv);
    var cmdName := if Peek(args, 0) == "" then app.defaultCommandName else Peek(args, 0);
    var command := if cmdName in app.commands then app.commands[cmdName] else ZeroCommand;
    var g := ExtractAll(args, NoParameters, app.flags, ord(0, app.flags));
    var res := Resolve(command, g.0, g.1, ord, 1);
    Outcome(Cmd(res.args, res.params), cmdName, res.visited, res.after, res.scopes,
            Calls(app, cmdName, res.handler))
  }

  /** Every global flag and every flag of every visited command has a
      parameter, provided or not; a later scope wins on a shared long form. */
  lemma RunParameters(app: App, argv: seq<string>, ord: FlagOrder)
    requires |argv| > 0
    requires ValidOrder(ord) && WellFormedApp(app)
    ensures var r := Run(app, argv, ord);
      FlagsOf(r.cmd.parameters) == app.flags + ScopeFlags(r.visited)
  {
    var r := Run(app, argv, ord);
    var g := ExtractAll(NewArgs(argv), NoParameters, app.flags, ord(0, app.flags));
    GlobalEntries(app, argv, ord);
    assert WellFormed(r.visited[0]);
    TracedEntries(r.visited[0], g.0, g.1, ord, 1, r.visited, r.after, r.scopes);
  }

  /** The global-flag loop of `Run` stores a parameter for every global flag
      and nothing else. */
  lemma GlobalEntries(app: App, argv: seq<string>, ord: FlagOrder)
    requires |argv| > 0
    requires ValidOrder(ord) && FlagsKeyedByLong(app.flags)
    ensures FlagsOf(ExtractAll(NewArgs(argv), NoParameters, app.flags, ord(0, app.flags)).1) == app.flags
  {
    var keys := ord(0, app.flags);
    assert IsEnumeration(keys, app.flags.Keys);
    ExtractScopeEntries(NewArgs(argv), NoParameters, app.flags, keys);
    assert FlagsOf(NoParameters) + app.flags == app.flags;
  }

  /** A name that is not registered never reaches a handler: the zero
      command has no function and no subcommands, so the fallback is called
      with the name (a Go panic when there is no fallback). */
  lemma UnknownCommandFallsBack(app: App, argv: seq<string>, ord: FlagOrder)
    requires |argv| > 0
    requires Run(app, argv, ord).cmdName !in app.commands
    ensures var r := Run(app, argv, ord);
      && r.visited == [ZeroCommand]
      && r.calls[|r.calls| - 1] == (if app.fallback.Some? then CallFallback(app.fallback.value, r.cmdName) else NilFallbackPanic(r.cmdName))
  {
    var r := Run(app, argv, ord);
    assert |r.visited| == 1;
  }

  /** The command name is read before the global flags are extracted, so a
      global flag written before a registered command name is taken as the
      command name: the fallback runs, with the flag as the name. */
  lemma FlagBeforeCommandFallsBack(app: App, argv: seq<string>, ord: FlagOrder)
    requires |argv| > 2 && argv[1] != "" && argv[1] !in app.commands && argv[2] in app.commands
    ensures var r := Run(app, argv, ord);
      && r.cmdName == argv[1]
      && r.visited == [ZeroCommand]
      && r.calls[|r.calls| - 1] == (if app.fallback.Some? then CallFallback(app.fallback.value, argv[1]) else NilFallbackPanic(argv[1]))
  {
    UnknownCommandFallsBack(app, argv, ord);
  }

  /** A registered command without subcommands is the one whose function is
      dispatched to. */
  lemma LeafCommandRuns(app: App, argv: seq<string>, ord: FlagOrder)
    requires |argv| > 1 && argv[1] != "" && argv[1] in app.commands
    requires app.commands[argv[1]].commands == map[]
    ensures var r := Run(app, argv, ord);
      && r.visited == [app.commands[argv[1]]]
      && r.calls[|r.calls| - 1] == Dispatch(app.commands[argv[1]].handler, app.fallback, argv[1])
  {
    var r := Run(app, argv, ord);
    assert |r.visited| == 1;
  }

  /** With no flags in the way, `prog build sub` runs the handler of `sub`
      registered under `build`: the tree is descended as far as the tokens
      name commands. */
  lemma SubcommandRuns(app: App, argv: seq<string>, ord: FlagOrder)
    requires ValidOrder(ord) && |argv| == 3 && argv[1] != "" && argv[1] in app.commands
    requires app.flags == map[] && app.commands[argv[1]].flags == map[]
    requires argv[2] in app.commands[argv[1]].commands
    requires app.commands[argv[1]].commands[argv[2]].commands == map[]
    ensures var r := Run(app, argv, ord);
      var parent := app.commands[argv[1]];
      var child := parent.commands[argv[2]];
      && r.visited == [parent, child]
      && r.calls[|r.calls| - 1] == Dispatch(child.handler, app.fallback, argv[1])
  {
    var r := Run(app, argv, ord);
    var parent := app.commands[argv[1]];
    var keys := ord(0, app.flags);
    assert IsEnumeration(keys, app.flags.Keys);
    EnumerationLength(keys, app.flags.Keys);
    var g := ExtractAll(NewArgs(argv), NoParameters, app.flags, keys);
    assert g.0.argv == argv[1..];
    TracedFlagless(parent, g.0, g.1, ord, 1, r.visited, r.after, r.scopes, 0);
    assert r.after[0].argv == [argv[2]];
    assert |r.visited| > 1;
    assert r.visited[1].commands == map[];
    assert |r.visited| == 2;
  }
}
