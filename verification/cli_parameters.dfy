/** Flags, the parameters extracted for them, and the set of parameters a
    command receives (cli/parameters.go). */
module CliParameters {
  import opened Strings

  /** Go keeps a flag's type as an untyped value and only ever asks whether it
      is a `bool`; everything else takes a value. */
  datatype FlagType = BoolType | ValueType

  /** An option accepted as `--long`, `--long=value` or `-s`. */
  datatype Flag = Flag(short: string, long: string, help: string, ftype: FlagType)

  /** A flag after extraction: every value found, in scan order, and whether
      the flag occurred at all. */
  datatype Parameter = Parameter(values: seq<string>, provided: bool, flag: Flag)

  /** The parameters of one dispatch, keyed by the long form of their flag.
      Go's nil map and an empty map behave alike for every lookup. */
  datatype Parameters = Parameters(entries: map<string, Parameter>)

  const NoParameters := Parameters(map[])

  /** `Parameter.AddValue`: appends one value and changes nothing else. */
  function AddValue(p: Parameter, v: string): (r: Parameter)
    ensures |r.values| == |p.values| + 1
    ensures r.values[..|p.values|] == p.values
    ensures r.values[|p.values|] == v
    ensures r.provided == p.provided && r.flag == p.flag
  {
    p.(values := p.values + [v])
  }

  /** `Parameter.IsProvided`. */
  predicate ParameterIsProvided(p: Parameter) {
    p.provided
  }

  /** `Parameter.String`: the last value recorded, "" when there is none. */
  function ParameterString(p: Parameter): (r: string)
    ensures |p.values| == 0 ==> r == ""
    ensures |p.values| > 0 ==> r == p.values[|p.values| - 1]
  {
    var num := |p.values|;
    if num > 0 then p.values[num - 1] else ""
  }

  /** The value last added is the one `Parameter.String` reports, whatever
      came before it. */
  lemma LastAddedWins(p: Parameter, v: string)
    ensures ParameterString(AddValue(p, v)) == v
    ensures ParameterIsProvided(AddValue(p, v)) == ParameterIsProvided(p)
  {
  }

  /** The spellings `Parameter.Bool` accepts, after lower-casing. */
  predicate IsTruthy(s: string) {
    var lower := ToLower(s);
    lower == "true" || lower == "t" || lower == "1"
  }

  /** `Parameter.Bool`: whether the last value reads as true. */
  function ParameterBool(p: Parameter): (r: bool)
    ensures r <==> |p.values| > 0 && IsTruthy(p.values[|p.values| - 1])
    ensures |p.values| == 0 ==> !r
  {
    IsTruthy(ParameterString(p))
  }

  /** Matches one character against an upper/lower-case pair. */
  predicate EitherCase(c: char, lower: char, upper: char) {
    c == lower || c == upper
  }

  /** The accepted spellings, listed without reference to lower-casing:
      "1", "t" in either case, and "true" with each letter in either case. */
  lemma TruthySpellings(s: string)
    ensures IsTruthy(s) <==>
      || s == "1"
      || (|s| == 1 && EitherCase(s[0], 't', 'T'))
      || (|s| == 4 && EitherCase(s[0], 't', 'T') && EitherCase(s[1], 'r', 'R')
                   && EitherCase(s[2], 'u', 'U') && EitherCase(s[3], 'e', 'E'))
  {
    var lower := ToLower(s);
    if |s| == 1 {
      assert lower == "1" <==> s == "1";
      assert lower == "t" <==> EitherCase(s[0], 't', 'T');
    } else if |s| == 4 {
      assert lower == "true" <==> lower[0] == 't' && lower[1] == 'r' && lower[2] == 'u' && lower[3] == 'e';
    }
  }

  /** "true", "T" and "1" read as true; "false", "0" and "" do not. */
  lemma SpellingExamples()
    ensures IsTruthy("true") && IsTruthy("T") && IsTruthy("1")
    ensures !IsTruthy("false") && !IsTruthy("0") && !IsTruthy("")
  {
    TruthySpellings("true");
    TruthySpellings("T");
    TruthySpellings("1");
    TruthySpellings("false");
    TruthySpellings("0");
    TruthySpellings("");
  }

  /** `Parameters.IsProvided`: false for an unknown long name, otherwise what
      the stored parameter says. */
  function ParametersIsProvided(ps: Parameters, long: string): (r: bool)
    ensures long !in ps.entries ==> !r
    ensures long in ps.entries ==> r == ps.entries[long].provided
  {
    long in ps.entries && ParameterIsProvided(ps.entries[long])
  }

  /** `Parameters.String`: the last value of a provided parameter (possibly
      ""), and `fallback` when the parameter is unknown or was not provided. */
  function ParametersString(ps: Parameters, long: string, fallback: string): (r: string)
    ensures !ParametersIsProvided(ps, long) ==> r == fallback
    ensures ParametersIsProvided(ps, long) ==> r == ParameterString(ps.entries[long])
  {
    if long in ps.entries && ParameterIsProvided(ps.entries[long])
    then ParameterString(ps.entries[long])
    else fallback
  }

  /** `Parameters.Bool`: false for an unknown long name. Note that it does not
      consult `IsProvided`: only the recorded values matter. */
  function ParametersBool(ps: Parameters, long: string): (r: bool)
    ensures long !in ps.entries ==> !r
    ensures long in ps.entries ==> r == ParameterBool(ps.entries[long])
  {
    if long in ps.entries then ParameterBool(ps.entries[long]) else false
  }

  /** `Parameters.AddParameter`: stores under the long form of the flag,
      replacing any earlier entry for it and leaving other entries alone. */
  function AddParameter(ps: Parameters, p: Parameter): (r: Parameters)
    ensures r.entries.Keys == ps.entries.Keys + {p.flag.long}
    ensures r.entries[p.flag.long] == p
    ensures forall k :: k in ps.entries && k != p.flag.long ==> r.entries[k] == ps.entries[k]
  {
    Parameters(ps.entries[p.flag.long := p])
  }

  /** Looking up what was just stored: under the stored flag's long form the
      three lookups read the new parameter (`String` its last value if it was
      provided, else the fallback); under any other name they are unchanged. */
  lemma LookupsAfterAdd(ps: Parameters, p: Parameter, long: string, fallback: string)
    ensures var r := AddParameter(ps, p);
      long == p.flag.long ==>
        && ParametersIsProvided(r, long) == p.provided
        && ParametersString(r, long, fallback) == (if p.provided then ParameterString(p) else fallback)
        && ParametersBool(r, long) == ParameterBool(p)
    ensures var r := AddParameter(ps, p);
      long != p.flag.long ==>
        && ParametersIsProvided(r, long) == ParametersIsProvided(ps, long)
        && ParametersString(r, long, fallback) == ParametersString(ps, long, fallback)
        && ParametersBool(r, long) == ParametersBool(ps, long)
  {
  }

  /** Adding a parameter for the same flag twice keeps only the second. */
  lemma AddParameterLastWins(ps: Parameters, p: Parameter, q: Parameter)
    requires p.flag.long == q.flag.long
    ensures AddParameter(AddParameter(ps, p), q) == AddParameter(ps, q)
  {
  }
}
