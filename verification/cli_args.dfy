/** The argument stream (cli/args.go): the program name, the command path
    consumed so far, and the remaining tokens. Every operation returns a new
    value; none changes its input. */
module CliArgs {
  import opened Wrappers
  import opened Strings
  import opened CliParameters

  datatype Args = Args(programName: string, commandName: string, argv: seq<string>)

  /** `NewArgs`: the first element of the process arguments is the program
      name, the rest are the tokens. Go indexes `argv[0]` unguarded, so an
      empty vector is outside the contract. */
  function NewArgs(argv: seq<string>): (a: Args)
    requires |argv| > 0
    ensures a.programName == argv[0]
    ensures a.commandName == ""
    ensures [a.programName] + a.argv == argv
  {
    Args(argv[0], "", argv[1..])
  }

  /** `Args.Length`. */
  function Length(a: Args): nat {
    |a.argv|
  }

  /** `Args.Peek`: the token at `index`, or "" past the end. A negative index
      panics in Go, hence `nat`. */
  function Peek(a: Args, index: nat): (r: string)
    ensures index < |a.argv| ==> r == a.argv[index]
    ensures |a.argv| <= index ==> r == ""
  {
    if |a.argv| > index then a.argv[index] else ""
  }

  /** `Args.Slice`: the tokens from `start` on; Go panics past the end. */
  function Slice(a: Args, start: nat): (r: seq<string>)
    requires start <= Length(a)
    ensures |r| == Length(a) - start
    ensures forall j :: 0 <= j < |r| ==> r[j] == Peek(a, start + j)
  {
    a.argv[start..]
  }

  /** `Args.String`: the tokens joined by single spaces. A single token is
      its own string, and no token is lost: each is a part of the string. */
  function String(a: Args): (r: string)
    ensures |a.argv| == 1 ==> r == a.argv[0]
    ensures forall i :: 0 <= i < |a.argv| ==> |a.argv[i]| <= |r|
  {
    JoinParts(a.argv, " ");
    Join(a.argv, " ")
  }

  /** Every piece of a join is no longer than the join. */
  lemma {:induction false} JoinParts(xs: seq<string>, sep: string)
    ensures forall i :: 0 <= i < |xs| ==> |xs[i]| <= |Join(xs, sep)|
    decreases |xs|
  {
    if |xs| > 1 {
      JoinParts(xs[1..], sep);
      forall i | 0 < i < |xs|
        ensures |xs[i]| <= |Join(xs, sep)|
      {
        assert xs[i] == xs[1..][i - 1];
      }
    }
  }

  /** `Args.String` loses nothing when no token holds a space: splitting it on
      spaces gives back the tokens. */
  lemma StringRoundTrip(a: Args)
    requires |a.argv| > 0
    requires forall i :: 0 <= i < |a.argv| ==> ' ' !in a.argv[i]
    ensures Split(String(a), ' ') == a.argv
  {
    SplitJoin(a.argv, ' ');
  }

  /** Appends a word to the space-separated command path; an empty word
      leaves the path as it is. */
  function ExtendName(path: string, name: string): (r: string)
    ensures name == "" ==> r == path
    ensures path == "" ==> r == name
    ensures path != "" && name != "" ==> r == path + [' '] + name
  {
    if path == "" then name
    else if name != "" then path + " " + name
    else path
  }

  /** `Args.SubcommandArgs`. As written, the leading token is dropped whether
      or not it is `cmdName` (the Go doc comment promises no arguments on a
      mismatch); the name is added to the command path unless there were at
      least two tokens and the first one differed from it. */
  function SubcommandArgs(a: Args, cmdName: string): (r: Args)
    ensures r.programName == a.programName
    ensures |a.argv| == 0 ==> r.argv == []
    ensures |a.argv| > 0 ==> [a.argv[0]] + r.argv == a.argv
    ensures |a.argv| > 1 && a.argv[0] != cmdName ==> r.commandName == a.commandName
    ensures (|a.argv| <= 1 || a.argv[0] == cmdName) ==> r.commandName == ExtendName(a.commandName, cmdName)
  {
    var (newArgv, name) :=
      if |a.argv| > 1 then
        (a.argv[1..], if Peek(a, 0) != cmdName then "" else cmdName)
      else
        ([], cmdName);
    Args(a.programName, ExtendName(a.commandName, name), newArgv)
  }

  /** The tokens left by `SubcommandArgs` do not depend on the name asked for. */
  lemma SubcommandArgsIgnoresName(a: Args, n: string, m: string)
    ensures SubcommandArgs(a, n).argv == SubcommandArgs(a, m).argv
  {
  }

  /** The doc comment of `SubcommandArgs` says a name that is not the called
      subcommand gets no arguments; the code keeps the tail anyway. */
  lemma SubcommandArgsMismatchKeepsTail()
    ensures SubcommandArgs(Args("git", "", ["status", "-s"]), "log") == Args("git", "", ["-s"])
    ensures SubcommandArgs(Args("git", "", ["status"]), "log") == Args("git", "log", [])
  {
  }

  /** `Args.Shift`: the first token and the stream without it. Go panics on
      an empty stream. */
  function Shift(a: Args): (r: (string, Args))
    requires |a.argv| > 0
    ensures [r.0] + r.1.argv == a.argv
    ensures r.1.programName == a.programName && r.1.commandName == a.commandName
  {
    (a.argv[0], SubcommandArgs(a, ""))
  }

  // ---------------------------------------------------------------------
  // Extract: explosion of short-flag bundles, then a one-pass scan.
  // ---------------------------------------------------------------------

  /** The regular expression `^-[a-zA-Z]{2,}$`: a dash and two or more ASCII
      letters. */
  predicate IsShortBundle(arg: string) {
    |arg| >= 3 && arg[0] == '-' && forall i :: 1 <= i < |arg| ==> IsAsciiLetter(arg[i])
  }

  /** One token of the pre-pass: a bundle becomes one `-x` per letter. */
  function ExplodeToken(arg: string): (r: seq<string>)
    ensures IsShortBundle(arg) ==> |r| == |arg| - 1 && forall i :: 0 <= i < |r| ==> r[i] == ['-', arg[i + 1]]
    ensures !IsShortBundle(arg) ==> r == [arg]
    ensures forall i :: 0 <= i < |r| ==> !IsShortBundle(r[i])
  {
    if IsShortBundle(arg) then seq(|arg| - 1, i requires 0 <= i < |arg| - 1 => ['-', arg[i + 1]])
    else [arg]
  }

  /** The pre-pass over all tokens, order preserved. Every token yields at
      least one. */
  function Explode(argv: seq<string>): (r: seq<string>)
    ensures |r| >= |argv|
    decreases |argv|
  {
    if |argv| == 0 then [] else ExplodeToken(argv[0]) + Explode(argv[1..])
  }

  /** Explosion works token by token, so it distributes over concatenation. */
  lemma {:induction false} ExplodeAppend(xs: seq<string>, ys: seq<string>)
    ensures Explode(xs + ys) == Explode(xs) + Explode(ys)
    decreases |xs|
  {
    if |xs| > 0 {
      assert (xs + ys)[0] == xs[0];
      assert (xs + ys)[1..] == xs[1..] + ys;
      ExplodeAppend(xs[1..], ys);
      calc {
        Explode(xs + ys);
        ExplodeToken(xs[0]) + Explode(xs[1..] + ys);
        ExplodeToken(xs[0]) + (Explode(xs[1..]) + Explode(ys));
        (ExplodeToken(xs[0]) + Explode(xs[1..])) + Explode(ys);
        Explode(xs) + Explode(ys);
      }
    } else {
      assert xs + ys == ys;
    }
  }

  /** The pre-pass leaves no bundle behind. */
  lemma {:induction false} ExplodeLeavesNoBundle(argv: seq<string>)
    ensures forall t :: t in Explode(argv) ==> !IsShortBundle(t)
    decreases |argv|
  {
    if |argv| > 0 {
      ExplodeLeavesNoBundle(argv[1..]);
    }
  }

  /** Tokens that are not bundles pass through the pre-pass unchanged. */
  lemma {:induction false} ExplodeWithoutBundles(argv: seq<string>)
    requires forall t :: t in argv ==> !IsShortBundle(t)
    ensures Explode(argv) == argv
    decreases |argv|
  {
    if |argv| > 0 {
      assert argv[0] in argv;
      ExplodeWithoutBundles(argv[1..]);
    }
  }

  /** What one token is to one flag. */
  datatype Occurrence =
    | LongForm(inline: Option<string>)   // `--long` or `--long=value`
    | ShortForm                          // exactly the short form
    | NotFlag                            // anything else, copied to the output

  /** How the scan reads one token when no value is pending. A token starting
      with `--` is only ever compared with the long form, split at its first
      `=`; any other token only with the short form. Empty forms never match. */
  function Classify(f: Flag, arg: string): (r: Occurrence)
    ensures r.ShortForm? ==> f.short != "" && arg == f.short
  {
    if HasPrefix(arg, "--") then
      var (name, inline) := SplitFirst(arg, '=');
      if f.long != "" && name == f.long then LongForm(inline) else NotFlag
    else if f.short != "" && arg == f.short then ShortForm
    else NotFlag
  }

  /** Whether a token spells the flag. */
  predicate Names(f: Flag, arg: string) {
    !Classify(f, arg).NotFlag?
  }

  /** What each classification says about the token: the short form is the
      token itself and never starts with `--`; the long form is the token up
      to its first `=`, with the rest as the inline value; and a bare `--long`
      always reads as the long form without a value. */
  lemma ClassifyForms(f: Flag, arg: string)
    ensures Classify(f, arg).ShortForm? ==> f.short != "" && arg == f.short && !HasPrefix(arg, "--")
    ensures Classify(f, arg).LongForm? ==> f.long != "" && HasPrefix(arg, "--") && '=' !in f.long
    ensures Classify(f, arg) == LongForm(None) ==> arg == f.long
    ensures Classify(f, arg).LongForm? && Classify(f, arg).inline.Some? ==>
              arg == f.long + "=" + Classify(f, arg).inline.value
    ensures HasPrefix(arg, "--") && f.long != "" && '=' !in arg && arg == f.long ==> Classify(f, arg) == LongForm(None)
  {
  }

  /** The value a naming token records by itself: its inline value, else
      "true" for a boolean flag; none when the flag takes the next token. */
  function OwnValue(f: Flag, occ: Occurrence): Option<string>
    requires !occ.NotFlag?
  {
    if occ.LongForm? && occ.inline.Some? then occ.inline
    else if f.ftype == BoolType then Some("true")
    else None
  }

  /** The state of the scan: the values and flag found so far, whether the
      next token is to be taken as a value, and the tokens kept so far. */
  datatype ScanState = ScanState(values: seq<string>, provided: bool, grab: bool, out: seq<string>)

  const Start := ScanState([], false, false, [])

  /** One iteration of the scan loop. */
  function Step(f: Flag, st: ScanState, arg: string): (r: ScanState)
    ensures st.provided ==> r.provided
  {
    if st.grab then st.(values := st.values + [arg], grab := false)
    else
      var occ := Classify(f, arg);
      if occ.NotFlag? then st.(out := st.out + [arg])
      else
        match OwnValue(f, occ)
        case Some(v) => st.(values := st.values + [v], provided := true)
        case None => st.(grab := true, provided := true)
  }

  /** A token is either kept (exactly when no value is pending and it does
      not spell the flag) or consumed; at most one value is recorded; a
      provided flag stays provided; and a value is pending next only after a
      value flag spelled with no value of its own. */
  lemma StepEffect(f: Flag, st: ScanState, arg: string)
    ensures Step(f, st, arg).out == (if !st.grab && !Names(f, arg) then st.out + [arg] else st.out)
    ensures |st.values| <= |Step(f, st, arg).values| <= |st.values| + 1
    ensures st.provided ==> Step(f, st, arg).provided
    ensures Step(f, st, arg).grab ==> !st.grab && Names(f, arg) && f.ftype == ValueType
  {
  }

  /** The scan loop over a token sequence. */
  function Scan(f: Flag, st: ScanState, toks: seq<string>): (r: ScanState)
    ensures st.provided ==> r.provided
    decreases |toks|
  {
    if |toks| == 0 then st else Scan(f, Step(f, st, toks[0]), toks[1..])
  }

  /** Each token adds at most one kept token and at most one value, and a
      provided flag stays provided. */
  lemma {:induction false} ScanBounds(f: Flag, st: ScanState, toks: seq<string>)
    ensures |st.out| <= |Scan(f, st, toks).out| <= |st.out| + |toks|
    ensures |st.values| <= |Scan(f, st, toks).values| <= |st.values| + |toks|
    ensures st.provided ==> Scan(f, st, toks).provided
    decreases |toks|
  {
    if |toks| > 0 {
      StepEffect(f, st, toks[0]);
      ScanBounds(f, Step(f, st, toks[0]), toks[1..]);
    }
  }

  /** `Args.Extract`: the parameter for `f` and the stream without the flag's
      tokens and their values. The new stream keeps the program name and, as
      in Go, starts with an empty command path. */
  function Extract(a: Args, f: Flag): (r: (Parameter, Args))
    ensures r.0.flag == f
    ensures r.1.programName == a.programName
    ensures r.1.commandName == ""
  {
    var st := Scan(f, Start, Explode(a.argv));
    (Parameter(st.values, st.provided, f), Args(a.programName, "", st.out))
  }

  /** What `Extract` leaves and what it reports: the kept tokens are the
      exploded tokens in their order with some left out, none of them spells
      the flag, and the flag is provided exactly when some exploded token
      spells it. */
  lemma ExtractRemovesFlag(a: Args, f: Flag)
    ensures Subsequence(Extract(a, f).1.argv, Explode(a.argv))
    ensures forall i :: 0 <= i < |Extract(a, f).1.argv| ==> !Names(f, Extract(a, f).1.argv[i])
    ensures Extract(a, f).0.provided <==> exists i :: 0 <= i < |Explode(a.argv)| && Names(f, Explode(a.argv)[i])
  {
    ExtractIsOccurrences(a, f);
    OccurrencesKeepOrder(f, Explode(a.argv));
    OccurrencesProvided(f, Explode(a.argv));
  }

  /** Extracting a flag and storing its parameter: `IsProvided` holds exactly
      when some exploded token names the flag; `String` is then the last value
      recorded ("" when a value flag ended the stream), and the fallback
      otherwise; `Bool` reads the last value recorded, if any. */
  lemma ExtractThenLookup(a: Args, f: Flag, ps: Parameters, fallback: string)
    ensures var toks := Explode(a.argv);
      var e := Occurrences(f, toks);
      var r := AddParameter(ps, Extract(a, f).0);
      && (ParametersIsProvided(r, f.long) <==> exists i :: 0 <= i < |toks| && Names(f, toks[i]))
      && ParametersString(r, f.long, fallback) ==
           (if !e.provided then fallback else if |e.values| == 0 then "" else e.values[|e.values| - 1])
      && (ParametersBool(r, f.long) <==> |e.values| > 0 && IsTruthy(e.values[|e.values| - 1]))
  {
    var p := Extract(a, f).0;
    ExtractIsOccurrences(a, f);
    OccurrencesProvided(f, Explode(a.argv));
    LookupsAfterAdd(ps, p, f.long, fallback);
  }

  // ---------------------------------------------------------------------
  // A reference definition of extraction, without the "grab" state: a
  // naming token that takes a value takes the next token with it.
  // ---------------------------------------------------------------------

  datatype Extraction = Extraction(values: seq<string>, provided: bool, out: seq<string>)

  function Occurrences(f: Flag, toks: seq<string>): Extraction
    decreases |toks|
  {
    if |toks| == 0 then Extraction([], false, [])
    else
      var t, rest := toks[0], toks[1..];
      var occ := Classify(f, t);
      if occ.NotFlag? then
        var e := Occurrences(f, rest);
        e.(out := [t] + e.out)
      else
        match OwnValue(f, occ)
        case Some(v) =>
          var e := Occurrences(f, rest);
          e.(values := [v] + e.values, provided := true)
        case None =>
          if |rest| == 0 then Extraction([], true, [])
          else
            var e := Occurrences(f, rest[1..]);
            e.(values := [rest[0]] + e.values, provided := true)
  }

  /** The scan, started with no value pending, computes the reference
      extraction on top of whatever it had already collected. */
  lemma ScanIsOccurrences(f: Flag, st: ScanState, toks: seq<string>)
    requires !st.grab
    ensures Scan(f, st, toks).values == st.values + Occurrences(f, toks).values
    ensures Scan(f, st, toks).provided == (st.provided || Occurrences(f, toks).provided)
    ensures Scan(f, st, toks).out == st.out + Occurrences(f, toks).out
  {
    ScanValues(f, st, toks);
    ScanProvided(f, st, toks);
    ScanOut(f, st, toks);
  }

  lemma {:induction false} ScanValues(f: Flag, st: ScanState, toks: seq<string>)
    requires !st.grab
    ensures Scan(f, st, toks).values == st.values + Occurrences(f, toks).values
    decreases |toks|
  {
    if |toks| > 0 {
      var t, rest := toks[0], toks[1..];
      var occ := Classify(f, t);
      var st1 := Step(f, st, t);
      if occ.NotFlag? {
        assert st1.values == st.values;
        ScanValues(f, st1, rest);
      } else if OwnValue(f, occ).Some? {
        assert st1.values == st.values + [OwnValue(f, occ).value];
        ScanValues(f, st1, rest);
      } else if |rest| > 0 {
        var st2 := Step(f, st1, rest[0]);
        assert st2.values == st.values + [rest[0]] && !st2.grab;
        assert Scan(f, st1, rest) == Scan(f, st2, rest[1..]);
        ScanValues(f, st2, rest[1..]);
      }
    }
  }

  lemma {:induction false} ScanProvided(f: Flag, st: ScanState, toks: seq<string>)
    requires !st.grab
    ensures Scan(f, st, toks).provided == (st.provided || Occurrences(f, toks).provided)
    decreases |toks|
  {
    if |toks| > 0 {
      var t, rest := toks[0], toks[1..];
      var occ := Classify(f, t);
      var st1 := Step(f, st, t);
      if occ.NotFlag? || OwnValue(f, occ).Some? {
        ScanProvided(f, st1, rest);
      } else if |rest| > 0 {
        var st2 := Step(f, st1, rest[0]);
        assert Scan(f, st1, rest) == Scan(f, st2, rest[1..]);
        ScanProvided(f, st2, rest[1..]);
      }
    }
  }

  lemma {:induction false} ScanOut(f: Flag, st: ScanState, toks: seq<string>)
    requires !st.grab
    ensures Scan(f, st, toks).out == st.out + Occurrences(f, toks).out
    decreases |toks|
  {
    if |toks| > 0 {
      var t, rest := toks[0], toks[1..];
      var occ := Classify(f, t);
      var st1 := Step(f, st, t);
      if occ.NotFlag? || OwnValue(f, occ).Some? {
        ScanOut(f, st1, rest);
      } else if |rest| > 0 {
        var st2 := Step(f, st1, rest[0]);
        assert Scan(f, st1, rest) == Scan(f, st2, rest[1..]);
        ScanOut(f, st2, rest[1..]);
      }
    }
  }

  /** `xs` is `ys` with some elements left out, the rest in order. */
  predicate Subsequence<T(==)>(xs: seq<T>, ys: seq<T>)
    decreases |ys|
  {
    if |ys| == 0 then |xs| == 0
    else Subsequence(xs, ys[1..]) || (|xs| > 0 && xs[0] == ys[0] && Subsequence(xs[1..], ys[1..]))
  }

  /** The kept tokens are a subsequence of the input and none spells the flag. */
  lemma {:induction false} OccurrencesKeepOrder(f: Flag, toks: seq<string>)
    ensures Subsequence(Occurrences(f, toks).out, toks)
    ensures forall i :: 0 <= i < |Occurrences(f, toks).out| ==> !Names(f, Occurrences(f, toks).out[i])
    decreases |toks|
  {
    if |toks| > 0 {
      var t, rest := toks[0], toks[1..];
      var occ := Classify(f, t);
      if occ.NotFlag? {
        OccurrencesKeepOrder(f, rest);
        var e := Occurrences(f, rest);
        assert ([t] + e.out)[1..] == e.out;
      } else if OwnValue(f, occ).Some? {
        OccurrencesKeepOrder(f, rest);
      } else if |rest| > 0 {
        OccurrencesKeepOrder(f, rest[1..]);
        assert Subsequence(Occurrences(f, rest[1..]).out, rest);
      }
    }
  }

  /** The flag is provided exactly when some token spells it: the first such
      token is always read with no value pending. */
  lemma {:induction false} OccurrencesProvided(f: Flag, toks: seq<string>)
    ensures Occurrences(f, toks).provided <==> exists i :: 0 <= i < |toks| && Names(f, toks[i])
    decreases |toks|
  {
    if |toks| > 0 {
      var t, rest := toks[0], toks[1..];
      OccurrencesProvided(f, rest);
      if !Names(f, t) {
        if exists i :: 0 <= i < |toks| && Names(f, toks[i]) {
          var i :| 0 <= i < |toks| && Names(f, toks[i]);
          assert Names(f, rest[i - 1]);
        }
        if exists i :: 0 <= i < |rest| && Names(f, rest[i]) {
          var i :| 0 <= i < |rest| && Names(f, rest[i]);
          assert Names(f, toks[i + 1]);
        }
      } else {
        assert Names(f, toks[0]);
      }
    }
  }

  /** Tokens none of which spells the flag are all kept, and nothing is found. */
  lemma {:induction false} OccurrencesOfAbsentFlag(f: Flag, toks: seq<string>)
    requires forall i :: 0 <= i < |toks| ==> !Names(f, toks[i])
    ensures Occurrences(f, toks) == Extraction([], false, toks)
    decreases |toks|
  {
    if |toks| > 0 {
      assert !Names(f, toks[0]);
      OccurrencesOfAbsentFlag(f, toks[1..]);
    }
  }

  /** Every element of a subsequence is an element of the whole. */
  lemma {:induction false} SubsequenceElements<T>(xs: seq<T>, ys: seq<T>)
    requires Subsequence(xs, ys)
    ensures forall x :: x in xs ==> x in ys
    decreases |ys|
  {
    if |ys| > 0 {
      if Subsequence(xs, ys[1..]) {
        SubsequenceElements(xs, ys[1..]);
      } else {
        SubsequenceElements(xs[1..], ys[1..]);
        assert xs == [xs[0]] + xs[1..];
      }
    }
  }

  // ---------------------------------------------------------------------
  // Properties of Extract.
  // ---------------------------------------------------------------------

  /** `Extract` computes the reference extraction of the exploded tokens. */
  lemma ExtractIsOccurrences(a: Args, f: Flag)
    ensures Extract(a, f).0 == Parameter(Occurrences(f, Explode(a.argv)).values, Occurrences(f, Explode(a.argv)).provided, f)
    ensures Extract(a, f).1 == Args(a.programName, "", Occurrences(f, Explode(a.argv)).out)
  {
    ScanIsOccurrences(f, Start, Explode(a.argv));
  }

  /** A flag that does not occur is not provided and has no values, and the
      stream comes back exploded but otherwise unchanged. */
  lemma ExtractAbsentFlag(a: Args, f: Flag)
    requires forall i :: 0 <= i < |Explode(a.argv)| ==> !Names(f, Explode(a.argv)[i])
    ensures Extract(a, f).0 == Parameter([], false, f)
    ensures Extract(a, f).1 == Args(a.programName, "", Explode(a.argv))
  {
    ExtractIsOccurrences(a, f);
    OccurrencesOfAbsentFlag(f, Explode(a.argv));
  }

  /** Extracting the same flag again finds nothing and leaves the stream as
      the first extraction left it. */
  lemma ExtractIdempotent(a: Args, f: Flag)
    ensures Extract(Extract(a, f).1, f).0 == Parameter([], false, f)
    ensures Extract(Extract(a, f).1, f).1 == Extract(a, f).1
  {
    var b := Extract(a, f).1;
    ExtractRemovesFlag(a, f);
    SubsequenceElements(b.argv, Explode(a.argv));
    ExplodeLeavesNoBundle(a.argv);
    ExplodeWithoutBundles(b.argv);
    ExtractAbsentFlag(b, f);
  }

  /** Tokens that do not spell a boolean flag. */
  function Unnamed(f: Flag, toks: seq<string>): seq<string>
    decreases |toks|
  {
    if |toks| == 0 then []
    else (if Names(f, toks[0]) then [] else [toks[0]]) + Unnamed(f, toks[1..])
  }

  /** The values a boolean flag records: "true" per bare occurrence, the
      inline value per `--long=value`. */
  function BoolValues(f: Flag, toks: seq<string>): seq<string>
    requires f.ftype == BoolType
    decreases |toks|
  {
    if |toks| == 0 then []
    else
      var occ := Classify(f, toks[0]);
      (if occ.NotFlag? then [] else [OwnValue(f, occ).value]) + BoolValues(f, toks[1..])
  }

  /** For a boolean flag nothing is taken as a value: exactly the spelling
      tokens are removed, each contributing one value. */
  lemma {:induction false} BoolFlagOccurrences(f: Flag, toks: seq<string>)
    requires f.ftype == BoolType
    ensures Occurrences(f, toks).out == Unnamed(f, toks)
    ensures Occurrences(f, toks).values == BoolValues(f, toks)
    decreases |toks|
  {
    if |toks| > 0 {
      BoolFlagOccurrences(f, toks[1..]);
    }
  }

  /** A value flag takes the next token as its value, whatever it looks like. */
  lemma ValueFlagTakesNextToken(f: Flag, x: string, rest: seq<string>)
    requires f.ftype == ValueType && f.short != "" && !HasPrefix(f.short, "--")
    ensures Occurrences(f, [f.short, x] + rest).values == [x] + Occurrences(f, rest).values
    ensures Occurrences(f, [f.short, x] + rest).out == Occurrences(f, rest).out
    ensures Occurrences(f, [f.short, x] + rest).provided
  {
    assert ([f.short, x] + rest)[1..][1..] == rest;
  }

  /** A value flag named last, by its short or its long form and with no
      inline value, is provided but records nothing; the tokens before it are
      kept. */
  lemma ValueFlagLast(f: Flag, xs: seq<string>, t: string)
    requires forall i :: 0 <= i < |xs| ==> !Names(f, xs[i])
    requires Names(f, t) && OwnValue(f, Classify(f, t)) == None
    ensures Occurrences(f, xs + [t]) == Extraction([], true, xs)
  {
    OccurrencesKeepAll(f, xs, [t]);
    assert Occurrences(f, [t]) == Extraction([], true, []);
  }

  /** A stream that ends with a value flag, named nowhere before, yields a
      parameter that is provided with no value, and loses only that last
      token. */
  lemma ValueFlagAtEnd(a: Args, f: Flag)
    requires |Explode(a.argv)| > 0
    requires var toks := Explode(a.argv);
      && Names(f, toks[|toks| - 1]) && OwnValue(f, Classify(f, toks[|toks| - 1])) == None
      && forall i :: 0 <= i < |toks| - 1 ==> !Names(f, toks[i])
    ensures Extract(a, f).0 == Parameter([], true, f)
    ensures Extract(a, f).1.argv == Explode(a.argv)[..|Explode(a.argv)| - 1]
  {
    var toks := Explode(a.argv);
    var xs := toks[..|toks| - 1];
    assert toks == xs + [toks[|toks| - 1]];
    ValueFlagLast(f, xs, toks[|toks| - 1]);
    ExtractIsOccurrences(a, f);
  }

  /** `--long=value` and `--long value` record the same thing when they lead
      the stream, for a long form without `=` and a value that is not a bundle. */
  lemma InlineValueSameAsSeparate(p: string, c: string, f: Flag, v: string, rest: seq<string>)
    requires f.ftype == ValueType && HasPrefix(f.long, "--") && '=' !in f.long
    requires !IsShortBundle(v)
    ensures Extract(Args(p, c, [f.long + "=" + v] + rest), f) == Extract(Args(p, c, [f.long, v] + rest), f)
  {
    var inline := f.long + "=" + v;
    var ys := Explode(rest);
    SecondDashNotBundle(inline);
    SecondDashNotBundle(f.long);
    ExplodeAppend([inline], rest);
    ExplodeAppend([f.long, v], rest);
    assert Explode([inline]) == [inline];
    assert Explode([f.long, v]) == [f.long, v];
    InlineOccurrences(f, v, ys);
    ExtractIsOccurrences(Args(p, c, [inline] + rest), f);
    ExtractIsOccurrences(Args(p, c, [f.long, v] + rest), f);
  }

  /** The scan records the same for `--long=value` and `--long value`. */
  lemma InlineOccurrences(f: Flag, v: string, ys: seq<string>)
    requires f.ftype == ValueType && HasPrefix(f.long, "--") && '=' !in f.long
    ensures Occurrences(f, [f.long + "=" + v] + ys) == Occurrences(f, [f.long, v] + ys)
  {
    ClassifyInline(f, f.long, v);
    ClassifyBareLong(f);
    OccurrencesOwn(f, f.long + "=" + v, v, ys);
    OccurrencesTake(f, f.long, v, ys);
  }

  /** A token that does not spell the flag is kept in front of the rest. */
  lemma OccurrencesKeep(f: Flag, t: string, rest: seq<string>)
    requires !Names(f, t)
    ensures var e := Occurrences(f, rest);
      Occurrences(f, [t] + rest) == e.(out := [t] + e.out)
  {
    assert ([t] + rest)[1..] == rest;
  }

  /** Tokens none of which spells the flag are kept, in front of whatever the
      rest yields. */
  lemma {:induction false} OccurrencesKeepAll(f: Flag, xs: seq<string>, rest: seq<string>)
    requires forall i :: 0 <= i < |xs| ==> !Names(f, xs[i])
    ensures var e := Occurrences(f, rest);
      Occurrences(f, xs + rest) == e.(out := xs + e.out)
    decreases |xs|
  {
    if |xs| > 0 {
      var e := Occurrences(f, rest);
      var tail := xs[1..] + rest;
      OccurrencesKeepAll(f, xs[1..], rest);
      var e1 := Occurrences(f, tail);
      assert e1 == e.(out := xs[1..] + e.out);
      OccurrencesKeep(f, xs[0], tail);
      assert xs + rest == [xs[0]] + tail;
      assert [xs[0]] + (xs[1..] + e.out) == xs + e.out;
    } else {
      assert xs + rest == rest;
    }
  }

  /** A token that records its own value puts it in front of the rest's. */
  lemma OccurrencesOwn(f: Flag, t: string, v: string, rest: seq<string>)
    requires Names(f, t) && OwnValue(f, Classify(f, t)) == Some(v)
    ensures var e := Occurrences(f, rest);
      Occurrences(f, [t] + rest) == e.(values := [v] + e.values, provided := true)
  {
    assert ([t] + rest)[1..] == rest;
  }

  /** A token that takes a value takes the token after it. */
  lemma OccurrencesTake(f: Flag, t: string, x: string, rest: seq<string>)
    requires Names(f, t) && OwnValue(f, Classify(f, t)) == None
    ensures var e := Occurrences(f, rest);
      Occurrences(f, [t, x] + rest) == e.(values := [x] + e.values, provided := true)
  {
    assert ([t, x] + rest)[1..] == [x] + rest;
    assert ([x] + rest)[1..] == rest;
  }

  // ---------------------------------------------------------------------
  // The cases of cli/args_test.go.
  // ---------------------------------------------------------------------

  const Colorize := Flag("-c", "--colorize", "", BoolType)
  const Description := Flag("-d", "--description", "", ValueType)

  /** A token that does not start with `--` can only be the short form. */
  lemma ClassifyNotLong(f: Flag, t: string)
    requires |t| < 2 || t[0] != '-' || t[1] != '-'
    ensures Classify(f, t) == if f.short != "" && t == f.short then ShortForm else NotFlag
  {
    assert !HasPrefix(t, "--");
  }

  /** `--name=value` splits at its first `=` when the name has none. */
  lemma ClassifyInline(f: Flag, name: string, v: string)
    requires f.long == name && HasPrefix(name, "--") && '=' !in name
    ensures Classify(f, name + "=" + v) == LongForm(Some(v))
  {
    var t := name + "=" + v;
    assert t == name + ['='] + v;
    IndexOfAfterPrefix(name, '=', v);
    assert t[..|name|] == name;
    assert t[|name| + 1..] == v;
    assert t[..2] == name[..2];
  }

  /** `--name` alone is the long form without a value. */
  lemma ClassifyBareLong(f: Flag)
    requires HasPrefix(f.long, "--") && '=' !in f.long
    ensures Classify(f, f.long) == LongForm(None)
  {
  }

  /** A token with a dash in second place is never a bundle. */
  lemma SecondDashNotBundle(t: string)
    requires |t| >= 2 && t[1] == '-'
    ensures !IsShortBundle(t)
  {
    assert !IsAsciiLetter(t[1]);
  }

  /** The bundle of the first test case. */
  lemma ExplodeAbcd()
    ensures ExplodeToken("-abcd") == ["-a", "-b", "-c", "-d"]
  {
    assert IsShortBundle("-abcd") by {
      assert forall i :: 1 <= i < 5 ==> IsAsciiLetter("-abcd"[i]);
    }
  }

  /** A boolean flag named by its short form, followed by tokens that do not
      name it, records "true" and keeps those tokens. */
  lemma ShortBoolHead(f: Flag, ys: seq<string>)
    requires f.ftype == BoolType && f.short != "" && !HasPrefix(f.short, "--")
    requires forall i :: 0 <= i < |ys| ==> !Names(f, ys[i])
    ensures Occurrences(f, [f.short] + ys) == Extraction(["true"], true, ys)
  {
    ClassifyNotLong(f, f.short);
    OccurrencesOfAbsentFlag(f, ys);
    OccurrencesOwn(f, f.short, "true", ys);
  }

  /** A boolean flag's short form among tokens that do not name it: "true"
      recorded, and only that token dropped from the output. */
  lemma ShortBoolOccurrences(f: Flag, xs: seq<string>, ys: seq<string>)
    requires f.ftype == BoolType && f.short != "" && !HasPrefix(f.short, "--")
    requires forall i :: 0 <= i < |xs| ==> !Names(f, xs[i])
    requires forall i :: 0 <= i < |ys| ==> !Names(f, ys[i])
    ensures Occurrences(f, xs + [f.short] + ys) == Extraction(["true"], true, xs + ys)
  {
    var r1 := [f.short] + ys;
    ShortBoolHead(f, ys);
    OccurrencesKeepAll(f, xs, r1);
    assert xs + r1 == xs + [f.short] + ys;
  }

  /** None of the tokens after `-c` in the first test case names it. */
  lemma ColorizeIgnores(ys: seq<string>)
    requires ys == ["-d", "hello", "world"]
    ensures forall i :: 0 <= i < |ys| ==> !Names(Colorize, ys[i])
  {
    ClassifyNotLong(Colorize, "-d");
    ClassifyNotLong(Colorize, "hello");
    ClassifyNotLong(Colorize, "world");
  }

  /** The exploded tokens of the first test case, scanned for `-c`. */
  lemma ColorizeOccurrences(toks: seq<string>)
    requires toks == ["-a", "-b", "-c", "-d", "hello", "world"]
    ensures Occurrences(Colorize, toks) == Extraction(["true"], true, ["-a", "-b", "-d", "hello", "world"])
  {
    var ys := ["-d", "hello", "world"];
    var xs := ["-a", "-b"];
    ClassifyNotLong(Colorize, "-a");
    ClassifyNotLong(Colorize, "-b");
    ColorizeIgnores(ys);
    ShortBoolOccurrences(Colorize, xs, ys);
    assert xs + [Colorize.short] + ys == toks;
    assert ["-a", "-b"] + ys == ["-a", "-b", "-d", "hello", "world"];
  }

  /** A bundle is exploded in the output even where the flag takes only one
      of its letters. */
  lemma BundleExtraction(argv: seq<string>)
    requires argv == ["hi", "-abcd", "hello", "world"]
    ensures var (p, a) := Extract(NewArgs(argv), Colorize);
      && p.provided && ParameterBool(p) && a.argv == ["-a", "-b", "-d", "hello", "world"]
  {
    var a0 := NewArgs(argv);
    ExplodeAbcd();
    assert Explode(["world"]) == ["world"];
    assert Explode(["hello", "world"]) == ["hello", "world"];
    var toks := Explode(a0.argv);
    assert toks == ["-a", "-b", "-c", "-d", "hello", "world"];
    ColorizeOccurrences(toks);
    ExtractIsOccurrences(a0, Colorize);
    SpellingExamples();
  }

  /** The tokens of the second step of the first test case, scanned for
      `-d`. */
  lemma DescriptionOccurrences(toks: seq<string>)
    requires toks == ["-a", "-b", "-d", "hello", "world"]
    ensures Occurrences(Description, toks) == Extraction(["hello"], true, ["-a", "-b", "world"])
  {
    ClassifyNotLong(Description, "-a");
    ClassifyNotLong(Description, "-b");
    ClassifyNotLong(Description, "-d");
    ClassifyNotLong(Description, "world");
    OccurrencesOfAbsentFlag(Description, ["world"]);
    OccurrencesTake(Description, "-d", "hello", ["world"]);
    OccurrencesKeep(Description, "-b", ["-d", "hello"] + ["world"]);
    OccurrencesKeep(Description, "-a", ["-b"] + (["-d", "hello"] + ["world"]));
    assert ["-a"] + (["-b"] + (["-d", "hello"] + ["world"])) == toks;
  }

  /** After the bundle is exploded, a value flag takes the token after its
      letter. */
  lemma ExplodedValueExtraction(a1: Args)
    requires a1.argv == ["-a", "-b", "-d", "hello", "world"]
    ensures var (p, a) := Extract(a1, Description);
      && p.provided && ParameterString(p) == "hello" && a.argv == ["-a", "-b", "world"]
  {
    assert forall t :: t in a1.argv ==> !IsShortBundle(t);
    ExplodeWithoutBundles(a1.argv);
    DescriptionOccurrences(a1.argv);
    ExtractIsOccurrences(a1, Description);
  }

  /** Repeated boolean occurrences accumulate in scan order; the last one
      decides `Bool` (the `-c hello --colorize=0 world` case, for any flag,
      value and surrounding words). */
  lemma RepeatedBoolFlag(p: string, f: Flag, v: string, w1: string, w2: string)
    requires f.ftype == BoolType && HasPrefix(f.long, "--") && '=' !in f.long
    requires f.short != "" && !HasPrefix(f.short, "--") && !IsShortBundle(f.short)
    requires !IsShortBundle(w1) && !IsShortBundle(w2) && !Names(f, w1) && !Names(f, w2)
    ensures var (q, a) := Extract(Args(p, "", [f.short, w1, f.long + "=" + v, w2]), f);
      && q.provided && q.values == ["true", v] && a.argv == [w1, w2]
      && (ParameterBool(q) <==> IsTruthy(v))
  {
    var inline := f.long + "=" + v;
    var toks := [f.short, w1, inline, w2];
    SecondDashNotBundle(inline);
    ExplodeWithoutBundles(toks);
    ClassifyInline(f, f.long, v);
    OccurrencesKeep(f, w2, []);
    OccurrencesOwn(f, inline, v, [w2]);
    OccurrencesKeep(f, w1, [inline] + [w2]);
    OccurrencesOwn(f, f.short, "true", [w1] + ([inline] + [w2]));
    assert [f.short] + ([w1] + ([inline] + [w2])) == toks;
    ExtractIsOccurrences(Args(p, "", toks), f);
  }

  /** The second half of the third test case's tokens. */
  lemma RepeatedValueTail(f: Flag, x2: string, x3: string, w2: string, w3: string)
    requires f.ftype == ValueType && HasPrefix(f.long, "--") && '=' !in f.long
    requires !Names(f, w2) && !Names(f, w3)
    ensures Occurrences(f, [f.long + "=" + x2, w2, f.long, x3, w3]) == Extraction([x2, x3], true, [w2, w3])
  {
    var inline := f.long + "=" + x2;
    ClassifyInline(f, f.long, x2);
    ClassifyBareLong(f);
    var t5 := [w3];
    var t4 := [f.long, x3] + t5;
    var t3 := [w2] + t4;
    OccurrencesKeep(f, w3, []);
    OccurrencesTake(f, f.long, x3, t5);
    OccurrencesKeep(f, w2, t4);
    OccurrencesOwn(f, inline, x2, t3);
    assert [inline] + t3 == [inline, w2, f.long, x3, w3];
  }

  /** The scan of the third test case's tokens. */
  lemma RepeatedValueOccurrences(f: Flag, x1: string, x2: string, x3: string, w1: string, w2: string, w3: string)
    requires f.ftype == ValueType && HasPrefix(f.long, "--") && '=' !in f.long
    requires f.short != "" && !HasPrefix(f.short, "--")
    requires !Names(f, w1) && !Names(f, w2) && !Names(f, w3)
    ensures Occurrences(f, [f.short, x1, w1, f.long + "=" + x2, w2, f.long, x3, w3]) == Extraction([x1, x2, x3], true, [w1, w2, w3])
  {
    var t2 := [f.long + "=" + x2, w2, f.long, x3, w3];
    RepeatedValueTail(f, x2, x3, w2, w3);
    ClassifyNotLong(f, f.short);
    OccurrencesKeep(f, w1, t2);
    OccurrencesTake(f, f.short, x1, [w1] + t2);
    assert [f.short, x1] + ([w1] + t2) == [f.short, x1, w1, f.long + "=" + x2, w2, f.long, x3, w3];
  }

  /** Repeated value occurrences accumulate in scan order, whichever syntax
      each one uses (the `-d hello one --description=cruel world two
      --description goodbye three` case, for any flag, values and words). */
  lemma RepeatedValueFlag(p: string, f: Flag, x1: string, x2: string, x3: string, w1: string, w2: string, w3: string)
    requires f.ftype == ValueType && HasPrefix(f.long, "--") && '=' !in f.long
    requires f.short != "" && !HasPrefix(f.short, "--") && !IsShortBundle(f.short)
    requires !IsShortBundle(x1) && !IsShortBundle(x3)
    requires !IsShortBundle(w1) && !IsShortBundle(w2) && !IsShortBundle(w3)
    requires !Names(f, w1) && !Names(f, w2) && !Names(f, w3)
    ensures var (q, a) := Extract(Args(p, "", [f.short, x1, w1, f.long + "=" + x2, w2, f.long, x3, w3]), f);
      && q.provided && q.values == [x1, x2, x3] && a.argv == [w1, w2, w3]
  {
    var toks := [f.short, x1, w1, f.long + "=" + x2, w2, f.long, x3, w3];
    SecondDashNotBundle(f.long + "=" + x2);
    SecondDashNotBundle(f.long);
    ExplodeWithoutBundles(toks);
    RepeatedValueOccurrences(f, x1, x2, x3, w1, w2, w3);
    ExtractIsOccurrences(Args(p, "", toks), f);
  }
}
