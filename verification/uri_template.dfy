/** Expansion of the small URI-template dialect of utils/uri_template.go:
    `{a,b}` expands to the escaped values of `a` and `b` joined by ",", and
    `{?a,b}` to a query string `?a=..&b=..` of the defined names.

    Expressions are found with the regular expression `\{([?]?)(.+?)\}`,
    whose leftmost-first matching is spelled out here: at each position, take
    the "?" modifier if that leads to a match, and the shortest non-empty body
    up to a "}"; the body cannot hold a line break ('.' does not match one).
    The query escaper (`url.QueryEscape`) is a parameter. */
module UriTemplate {
  import opened Wrappers
  import opened Strings

  // ---------------------------------------------------------------------
  // Finding expressions.
  // ---------------------------------------------------------------------

  /** A body starting at `j` can end with the "}" at `k`. */
  predicate ClosesAt(t: string, j: nat, k: nat) {
    j < k < |t| && t[k] == '}' && '\n' !in t[j..k]
  }

  /** The search for the closing brace, from position `k` on. */
  function CloseFrom(t: string, j: nat, k: nat): (r: Option<nat>)
    requires j < k <= |t| + 1
    requires '\n' !in t[j..k - 1]
    ensures r.Some? ==> ClosesAt(t, j, r.value) && forall m :: k <= m < r.value ==> !ClosesAt(t, j, m)
    ensures r.None? ==> forall m :: k <= m < |t| ==> !ClosesAt(t, j, m)
    decreases |t| - k
  {
    if k >= |t| then None
    else if t[k - 1] == '\n' then
      assert forall m :: k <= m < |t| ==> t[j..m][k - 1 - j] == '\n';
      None
    else
      assert t[j..k] == t[j..k - 1] + [t[k - 1]];
      if t[k] == '}' then Some(k) else CloseFrom(t, j, k + 1)
  }

  /** The end of the shortest body starting at `j`: the first position where
      a body can end, or none. */
  function FindClose(t: string, j: nat): (r: Option<nat>)
    requires j <= |t|
    ensures r.Some? ==> ClosesAt(t, j, r.value) && forall m: nat :: m < r.value ==> !ClosesAt(t, j, m)
    ensures r.None? ==> forall m: nat :: !ClosesAt(t, j, m)
  {
    CloseFrom(t, j, j + 1)
  }

  /** An expression matched at the start of the text: its modifier ("" or
      "?"), its body and the length of the match. */
  datatype Match = Match(modifier: string, body: string, len: nat)

  /** The text spelled by an expression. */
  function Braced(modifier: string, body: string): string {
    "{" + modifier + body + "}"
  }

  /** The match of the expression pattern at the start of `t`, if any. */
  function MatchHead(t: string): (r: Option<Match>)
    ensures r.Some? ==> && (r.value.modifier == "" || r.value.modifier == "?")
                        && |r.value.body| > 0 && r.value.len <= |t|
                        && t[..r.value.len] == Braced(r.value.modifier, r.value.body)
    ensures r.None? ==> |t| == 0 || t[0] != '{' || forall m :: !ClosesAt(t, 1, m)
  {
    if |t| == 0 || t[0] != '{' then None
    else if |t| > 1 && t[1] == '?' && FindClose(t, 2).Some? then
      var k := FindClose(t, 2).value;
      assert t[..k + 1] == "{" + "?" + t[2..k] + "}";
      Some(Match("?", t[2..k], k + 1))
    else
      match FindClose(t, 1)
      case None => None
      case Some(k) =>
        assert t[..k + 1] == "{" + "" + t[1..k] + "}";
        Some(Match("", t[1..k], k + 1))
  }

  /** Which match the pattern takes: the modifier is "?" exactly when a body
      after "{?" can close, and the match ends where the shortest body after
      the modifier closes. */
  lemma MatchHeadFirstClose(t: string)
    requires MatchHead(t).Some?
    ensures var m := MatchHead(t).value;
      m.modifier == "?" <==> |t| > 1 && t[1] == '?' && FindClose(t, 2).Some?
    ensures var m := MatchHead(t).value;
      var j := |m.modifier| + 1;
      j <= |t| && m.len > 0 && FindClose(t, j) == Some(m.len - 1)
  { }

  /** The body is the shortest that closes: in "{?a}b}" the expression
      ends at the first "}". */
  lemma MatchHeadShortest()
    ensures MatchHead("{?a}b}") == Some(Match("?", "a", 4))
  {
    var t := "{?a}b}";
    assert ClosesAt(t, 2, 3);
    assert FindClose(t, 2) == Some(3) by {
      forall m: nat | m < 3
        ensures !ClosesAt(t, 2, m)
      {
        assert m < 2 || t[m] != '}';
      }
    }
    assert t[2..3] == "a";
  }

  /** A template as the regular expression sees it: literal characters and
      expressions. */
  datatype Piece = Lit(c: char) | Expr(modifier: string, body: string)

  /** The text a piece was read from. */
  function Spelling(p: Piece): string {
    match p
    case Lit(c) => [c]
    case Expr(m, b) => Braced(m, b)
  }

  /** The text a sequence of pieces was read from. */
  function Unparse(ps: seq<Piece>): string
    decreases |ps|
  {
    if |ps| == 0 then "" else Spelling(ps[0]) + Unparse(ps[1..])
  }

  /** The non-overlapping matches, left to right, with the text between them. */
  function Parse(t: string): (r: seq<Piece>)
    ensures |r| <= |t|
    decreases |t|
  {
    if |t| == 0 then []
    else
      match MatchHead(t)
      case Some(m) => [Expr(m.modifier, m.body)] + Parse(t[m.len..])
      case None => [Lit(t[0])] + Parse(t[1..])
  }

  /** Splitting a template into literals and expressions loses nothing. */
  lemma {:induction false} UnparseParse(t: string)
    ensures Unparse(Parse(t)) == t
    decreases |t|
  {
    if |t| > 0 {
      match MatchHead(t)
      case Some(m) =>
        var rest := t[m.len..];
        assert Parse(t) == [Expr(m.modifier, m.body)] + Parse(rest);
        UnparseParse(rest);
        UnparseCons(Expr(m.modifier, m.body), Parse(rest));
        assert Spelling(Expr(m.modifier, m.body)) == t[..m.len];
        assert t == t[..m.len] + rest;
      case None =>
        var rest := t[1..];
        assert Parse(t) == [Lit(t[0])] + Parse(rest);
        UnparseParse(rest);
        UnparseCons(Lit(t[0]), Parse(rest));
        assert t == [t[0]] + rest;
    }
  }

  /** The text of a piece followed by more pieces. */
  lemma UnparseCons(p: Piece, ps: seq<Piece>)
    ensures Unparse([p] + ps) == Spelling(p) + Unparse(ps)
  {
    assert ([p] + ps)[1..] == ps;
  }

  /** The pieces of text without a "{" are its characters. */
  function Literals(x: string): (r: seq<Piece>)
    ensures |r| == |x|
    ensures forall i :: 0 <= i < |x| ==> r[i] == Lit(x[i])
  {
    seq(|x|, i requires 0 <= i < |x| => Lit(x[i]))
  }

  /** Text without a "{" parses into literals, whatever follows it. */
  lemma {:induction false} ParseLiteralPrefix(x: string, z: string)
    requires '{' !in x
    ensures Parse(x + z) == Literals(x) + Parse(z)
    decreases |x|
  {
    if |x| > 0 {
      var t := x + z;
      assert t[0] == x[0] && t[1..] == x[1..] + z;
      ParseLiteralPrefix(x[1..], z);
      assert Literals(x) == [Lit(x[0])] + Literals(x[1..]);
    } else {
      assert x + z == z;
    }
  }

  /** Where the parts of an expression followed by more text sit. */
  lemma BracedSlices(m: string, body: string, y: string)
    ensures var t, j := Braced(m, body) + y, 1 + |m|;
      && |t| == j + |body| + 1 + |y| && t[0] == '{' && t[1..j] == m
      && t[j..j + |body|] == body && t[j + |body|] == '}' && t[j + |body| + 1..] == y
      && forall n :: j <= n < j + |body| ==> t[n] == body[n - j]
  {
    var head := "{" + m;
    var t := head + body + ("}" + y);
    assert Braced(m, body) + y == t;
    assert t[..|head|] == head;
    assert t[|head|..|head| + |body|] == body;
    assert t[|head| + |body|..] == "}" + y;
  }

  /** An expression whose body holds neither "}" nor a line break is read
      back as itself. A simple body must not start with "?", which would be
      read as the modifier. */
  lemma ParseExpression(m: string, body: string, y: string)
    requires m == "" || m == "?"
    requires |body| > 0 && '}' !in body && '\n' !in body
    requires m == "" ==> body[0] != '?'
    ensures Parse(Braced(m, body) + y) == [Expr(m, body)] + Parse(y)
  {
    var t := Braced(m, body) + y;
    var j := 1 + |m|;
    var k := j + |body|;
    BracedSlices(m, body, y);
    assert ClosesAt(t, j, k);
    forall n: nat | n < k
      ensures !ClosesAt(t, j, n)
    {
      if j < n {
        assert t[n] == body[n - j];
      }
    }
    assert FindClose(t, j) == Some(k);
    assert t[k + 1..] == y;
  }

  // ---------------------------------------------------------------------
  // Expanding one expression.
  // ---------------------------------------------------------------------

  /** What expanding reports: the text, and the key missing from the last
      simple expression that had one (Go's non-nil error). */
  datatype Expansion = Expansion(text: string, missing: Option<string>)

  /** The name loop of one expression, after `written` values were written.
      Only a simple expression can stop at a key, which is then one of its
      names and undefined. */
  function ExpandNames(names: seq<string>, modifier: string, params: map<string, string>,
                       esc: string -> string, written: nat): (r: Expansion)
    ensures r.missing.Some? ==> modifier != "?" && r.missing.value in names && r.missing.value !in params
    decreases |names|
  {
    if |names| == 0 then Expansion("", None)
    else
      var name := names[0];
      if name !in params then
        if modifier == "?" then ExpandNames(names[1..], modifier, params, esc, written)
        else Expansion("", Some(name))
      else
        var sep := if written == 0 then modifier else if modifier == "?" then "&" else ",";
        var key := if modifier == "?" then esc(name) + "=" else "";
        var rest := ExpandNames(names[1..], modifier, params, esc, written + 1);
        Expansion(sep + key + esc(params[name]) + rest.text, rest.missing)
  }

  /** The replacement for one expression: its body split on ",". A missing
      key is a comma-separated name of a simple expression's body. */
  function ExpandExpression(modifier: string, body: string, params: map<string, string>, esc: string -> string): (r: Expansion)
    ensures r.missing.Some? ==> modifier != "?" && r.missing.value in Split(body, ',') && r.missing.value !in params
  {
    ExpandNames(Split(body, ','), modifier, params, esc, 0)
  }

  /** The names that are defined, in order. */
  function Defined(names: seq<string>, params: map<string, string>): (r: seq<string>)
    ensures forall i :: 0 <= i < |r| ==> r[i] in params
    decreases |names|
  {
    if |names| == 0 then []
    else if names[0] in params then [names[0]] + Defined(names[1..], params)
    else Defined(names[1..], params)
  }

  /** Keeping the defined names works name by name: it distributes over
      concatenation, so the defined names keep their order and repetitions
      (with `DefinedSingle`, this determines `Defined` entirely). */
  lemma {:induction false} DefinedAppend(xs: seq<string>, ys: seq<string>, params: map<string, string>)
    ensures Defined(xs + ys, params) == Defined(xs, params) + Defined(ys, params)
    decreases |xs|
  {
    if |xs| > 0 {
      assert (xs + ys)[1..] == xs[1..] + ys;
      DefinedAppend(xs[1..], ys, params);
    } else {
      assert xs + ys == ys;
    }
  }

  /** A single name is kept exactly when it is defined. */
  lemma DefinedSingle(x: string, params: map<string, string>)
    ensures Defined([x], params) == if x in params then [x] else []
  {
    assert [x][1..] == [];
  }

  /** A name is kept exactly when it is listed and defined. */
  lemma {:induction false} DefinedMembers(names: seq<string>, params: map<string, string>, x: string)
    ensures x in Defined(names, params) <==> x in names && x in params
    decreases |names|
  {
    if |names| > 0 {
      DefinedMembers(names[1..], params, x);
      assert x in names <==> x == names[0] || x in names[1..];
    }
  }

  /** The longest prefix of defined names. */
  function DefinedPrefix(names: seq<string>, params: map<string, string>): (r: nat)
    ensures r <= |names|
    ensures forall i :: 0 <= i < r ==> names[i] in params
    ensures r < |names| ==> names[r] !in params
    decreases |names|
  {
    if |names| == 0 || names[0] !in params then 0
    else 1 + DefinedPrefix(names[1..], params)
  }

  /** `name=value` pairs of the query form, escaped. */
  function QueryPairs(names: seq<string>, params: map<string, string>, esc: string -> string): (r: seq<string>)
    requires forall i :: 0 <= i < |names| ==> names[i] in params
    ensures |r| == |names|
    ensures forall i :: 0 <= i < |names| ==> r[i] == esc(names[i]) + "=" + esc(params[names[i]])
  {
    seq(|names|, i requires 0 <= i < |names| => esc(names[i]) + "=" + esc(params[names[i]]))
  }

  /** Escaped values of the simple form: those of the names before the first
      undefined one. */
  function PrefixValues(names: seq<string>, params: map<string, string>, esc: string -> string): (r: seq<string>)
    ensures |r| == DefinedPrefix(names, params)
    ensures forall i :: 0 <= i < |r| ==> names[i] in params && r[i] == esc(params[names[i]])
    decreases |names|
  {
    if |names| == 0 || names[0] !in params then []
    else [esc(params[names[0]])] + PrefixValues(names[1..], params, esc)
  }

  /** Joining a first piece onto the join of at least one more. */
  lemma JoinCons(x: string, xs: seq<string>, sep: string)
    requires |xs| > 0
    ensures Join([x] + xs, sep) == x + sep + Join(xs, sep)
  {
    assert ([x] + xs)[1..] == xs;
  }

  /** What the query form writes after `written` values: the defined names
      as `name=value` pairs joined by "&", led by "?" (by "&" when values were
      already written), nothing when no name is defined, and no missing key. */
  function QueryExpansion(names: seq<string>, params: map<string, string>, esc: string -> string, written: nat): Expansion {
    var d := Defined(names, params);
    Expansion(if |d| == 0 then "" else (if written == 0 then "?" else "&") + Join(QueryPairs(d, params, esc), "&"), None)
  }

  /** The query form's name loop writes `QueryExpansion`: undefined names are
      skipped. */
  lemma {:induction false} ExpandQueryNames(names: seq<string>, params: map<string, string>, esc: string -> string, written: nat)
    ensures ExpandNames(names, "?", params, esc, written) == QueryExpansion(names, params, esc, written)
    decreases |names|
  {
    if |names| > 0 {
      if names[0] in params {
        ExpandQueryNames(names[1..], params, esc, written + 1);
        QueryDefinedStep(names, params, esc, written);
      } else {
        ExpandQueryNames(names[1..], params, esc, written);
        assert Defined(names, params) == Defined(names[1..], params);
      }
    }
  }

  /** One defined name: its pair, then what the rest of the names write. */
  lemma QueryDefinedStep(names: seq<string>, params: map<string, string>, esc: string -> string, written: nat)
    requires |names| > 0 && names[0] in params
    requires ExpandNames(names[1..], "?", params, esc, written + 1) == QueryExpansion(names[1..], params, esc, written + 1)
    ensures ExpandNames(names, "?", params, esc, written) == QueryExpansion(names, params, esc, written)
  {
    var name, rest := names[0], names[1..];
    var key, v := esc(name) + "=", esc(params[name]);
    var pair := key + v;
    var sep := if written == 0 then "?" else "&";
    var r := ExpandNames(rest, "?", params, esc, written + 1);
    var e := ExpandNames(names, "?", params, esc, written);
    QueryDefinedText(names, params, esc, written);
    var dr := Defined(rest, params);
    var ps := QueryPairs(dr, params, esc);
    QueryPairsCons(names, params, esc);
    var qe := QueryExpansion(names, params, esc, written);
    if |dr| > 0 {
      var jp := Join(ps, "&");
      assert r.text == "&" + jp;
      JoinCons(pair, ps, "&");
      assert qe.text == sep + (pair + "&" + jp);
      assert e.text == sep + key + v + ("&" + jp);
      ConcatRegroup(sep, key, v, "&", jp);
    } else {
      assert r.text == "";
      assert Join([pair] + ps, "&") == pair;
      assert qe.text == sep + pair;
      assert e.text == sep + key + v + "";
      ConcatRegroup(sep, key, v, "", "");
    }
    assert e.text == qe.text && e.missing == qe.missing;
  }

  /** What a defined name writes in the query form, before the rest. */
  lemma QueryDefinedText(names: seq<string>, params: map<string, string>, esc: string -> string, written: nat)
    requires |names| > 0 && names[0] in params
    ensures var r, e := ExpandNames(names[1..], "?", params, esc, written + 1), ExpandNames(names, "?", params, esc, written);
      && e.text == (if written == 0 then "?" else "&") + (esc(names[0]) + "=") + esc(params[names[0]]) + r.text
      && e.missing == r.missing
  {
  }

  /** A defined name contributes the first pair. */
  lemma QueryPairsCons(names: seq<string>, params: map<string, string>, esc: string -> string)
    requires |names| > 0 && names[0] in params
    ensures var d, dr := Defined(names, params), Defined(names[1..], params);
      && |d| == 1 + |dr|
      && QueryPairs(d, params, esc) == [esc(names[0]) + "=" + esc(params[names[0]])] + QueryPairs(dr, params, esc)
  {
    assert Defined(names, params) == [names[0]] + Defined(names[1..], params);
  }

  /** Regrouping a concatenation of five strings. */
  lemma ConcatRegroup(a: string, b: string, c: string, d: string, e: string)
    ensures a + b + c + (d + e) == a + (b + c + d + e)
  {
  }

  /** What the simple form writes after `written` values: the escaped values
      of the names up to the first undefined one, joined by ",", with no
      prefix (a "," when values were already written), reporting that first
      undefined name as missing. */
  function SimpleExpansion(names: seq<string>, params: map<string, string>, esc: string -> string, written: nat): Expansion {
    var n := DefinedPrefix(names, params);
    Expansion(if n == 0 then "" else (if written == 0 then "" else ",") + Join(PrefixValues(names, params, esc), ","),
              if n < |names| then Some(names[n]) else None)
  }

  /** The simple form's name loop writes `SimpleExpansion`. */
  lemma {:induction false} ExpandSimpleNames(names: seq<string>, params: map<string, string>, esc: string -> string, written: nat)
    ensures ExpandNames(names, "", params, esc, written) == SimpleExpansion(names, params, esc, written)
    decreases |names|
  {
    if |names| == 0 {
      assert DefinedPrefix(names, params) == 0;
    } else if names[0] !in params {
      assert ExpandNames(names, "", params, esc, written) == Expansion("", Some(names[0]));
      assert DefinedPrefix(names, params) == 0;
    } else {
      ExpandSimpleNames(names[1..], params, esc, written + 1);
      SimpleDefinedStep(names, params, esc, written);
    }
  }

  /** One defined name: its value, then what the rest of the names write. */
  lemma SimpleDefinedStep(names: seq<string>, params: map<string, string>, esc: string -> string, written: nat)
    requires |names| > 0 && names[0] in params
    requires ExpandNames(names[1..], "", params, esc, written + 1) == SimpleExpansion(names[1..], params, esc, written + 1)
    ensures ExpandNames(names, "", params, esc, written) == SimpleExpansion(names, params, esc, written)
  {
    var rest := names[1..];
    var v := esc(params[names[0]]);
    var sep := if written == 0 then "" else ",";
    var r := ExpandNames(rest, "", params, esc, written + 1);
    var e := ExpandNames(names, "", params, esc, written);
    SimpleDefinedText(names, params, esc, written);
    var vs := PrefixValues(rest, params, esc);
    var se := SimpleExpansion(names, params, esc, written);
    SimplePrefixCons(names, params, esc, written);
    assert e.text == se.text by {
      if |vs| > 0 {
        var jv := Join(vs, ",");
        assert r.text == "," + jv;
        JoinCons(v, vs, ",");
        assert se.text == sep + (v + "," + jv);
        assert e.text == sep + "" + v + ("," + jv);
        ConcatShift(sep, v, ",", jv);
      } else {
        assert r.text == "";
        assert Join([v] + vs, ",") == v;
        assert se.text == sep + v;
        assert e.text == sep + "" + v + "";
      }
    }
    assert e.missing == se.missing;
  }

  /** What a defined name writes in the simple form, before the rest. */
  lemma SimpleDefinedText(names: seq<string>, params: map<string, string>, esc: string -> string, written: nat)
    requires |names| > 0 && names[0] in params
    ensures var r, e := ExpandNames(names[1..], "", params, esc, written + 1), ExpandNames(names, "", params, esc, written);
      && e.text == (if written == 0 then "" else ",") + "" + esc(params[names[0]]) + r.text
      && e.missing == r.missing
  {
  }

  /** A defined first name contributes the first value, and the missing name
      is the one the rest reports. */
  lemma SimplePrefixCons(names: seq<string>, params: map<string, string>, esc: string -> string, written: nat)
    requires |names| > 0 && names[0] in params
    ensures var vs := PrefixValues(names[1..], params, esc);
      && DefinedPrefix(names, params) == 1 + |vs|
      && PrefixValues(names, params, esc) == [esc(params[names[0]])] + vs
      && SimpleExpansion(names, params, esc, written).missing == SimpleExpansion(names[1..], params, esc, written + 1).missing
  {
    var rest := names[1..];
    var n := DefinedPrefix(rest, params);
    if n < |rest| {
      assert names[1 + n] == rest[n];
    }
  }

  /** Regrouping a concatenation of four strings. */
  lemma ConcatShift(a: string, b: string, c: string, d: string)
    ensures a + "" + b + (c + d) == a + (b + c + d)
  {
  }

  /** `{?a,b}` expands to the query string of its defined names and never
      fails. */
  lemma ExpandQuery(body: string, params: map<string, string>, esc: string -> string)
    ensures var d := Defined(Split(body, ','), params);
      ExpandExpression("?", body, params, esc) ==
        Expansion(if |d| == 0 then "" else "?" + Join(QueryPairs(d, params, esc), "&"), None)
  {
    ExpandQueryNames(Split(body, ','), params, esc, 0);
  }

  /** `{a,b}` expands to the escaped values joined by ","; an undefined name
      stops the expression, keeps what was written before it, and is
      reported. */
  lemma ExpandSimple(body: string, params: map<string, string>, esc: string -> string)
    ensures var names := Split(body, ',');
      var n := DefinedPrefix(names, params);
      ExpandExpression("", body, params, esc) ==
        Expansion(Join(PrefixValues(names, params, esc), ","), if n < |names| then Some(names[n]) else None)
  {
    ExpandSimpleNames(Split(body, ','), params, esc, 0);
  }

  /** The number of separators written is one less than the number of values
      written: the text is the written pieces plus that many separators. */
  lemma QuerySeparators(body: string, params: map<string, string>, esc: string -> string)
    requires |Defined(Split(body, ','), params)| > 0
    ensures var d := Defined(Split(body, ','), params);
      |ExpandExpression("?", body, params, esc).text| == 1 + TotalLength(QueryPairs(d, params, esc)) + (|d| - 1)
  {
    ExpandQuery(body, params, esc);
    var d := Defined(Split(body, ','), params);
    JoinLength(QueryPairs(d, params, esc), "&");
  }

  // ---------------------------------------------------------------------
  // Expanding a template.
  // ---------------------------------------------------------------------

  /** The replacement loop: literals are copied, each expression is replaced
      by its expansion, and a missing key replaces the one reported so far. */
  function ExpandPieces(ps: seq<Piece>, params: map<string, string>, esc: string -> string, missing: Option<string>): (r: Expansion)
    ensures missing.Some? ==> r.missing.Some?
    ensures r.missing.Some? ==> r.missing == missing || r.missing.value !in params
    decreases |ps|
  {
    if |ps| == 0 then Expansion("", missing)
    else
      match ps[0]
      case Lit(c) =>
        var rest := ExpandPieces(ps[1..], params, esc, missing);
        Expansion([c] + rest.text, rest.missing)
      case Expr(m, b) =>
        var e := ExpandExpression(m, b, params, esc);
        var rest := ExpandPieces(ps[1..], params, esc, if e.missing.Some? then e.missing else missing);
        Expansion(e.text + rest.text, rest.missing)
  }

  /** `ExpandUriTemplate`: the expanded text and the error, reported as the
      missing key. */
  function ExpandUriTemplate(tpl: string, params: map<string, string>, esc: string -> string): (r: Expansion)
    ensures r.missing.Some? ==> r.missing.value !in params
  {
    ExpandPieces(Parse(tpl), params, esc, None)
  }

  /** The missing key an expression reports, if any. */
  function PieceMissing(p: Piece, params: map<string, string>, esc: string -> string): Option<string> {
    match p
    case Lit(_) => None
    case Expr(m, b) => ExpandExpression(m, b, params, esc).missing
  }

  /** The key reported by the last expression that reports one. */
  function LastMissing(ps: seq<Piece>, params: map<string, string>, esc: string -> string): Option<string>
    decreases |ps|
  {
    if |ps| == 0 then None
    else
      var m := PieceMissing(ps[|ps| - 1], params, esc);
      if m.Some? then m else LastMissing(ps[..|ps| - 1], params, esc)
  }

  /** Looking for the last report from the front: a later report wins. */
  lemma {:induction false} LastMissingCons(p: Piece, ps: seq<Piece>, params: map<string, string>, esc: string -> string)
    ensures var l := LastMissing(ps, params, esc);
      LastMissing([p] + ps, params, esc) == if l.Some? then l else PieceMissing(p, params, esc)
    decreases |ps|
  {
    if |ps| > 0 {
      var all := [p] + ps;
      assert all[|all| - 1] == ps[|ps| - 1];
      assert all[..|all| - 1] == [p] + ps[..|ps| - 1];
      LastMissingCons(p, ps[..|ps| - 1], params, esc);
    } else {
      assert ([p] + ps)[..0] == [];
    }
  }

  /** An error in one expression does not stop the others, and the error
      reported is that of the last failing expression. */
  lemma {:induction false} ExpandPiecesMissing(ps: seq<Piece>, params: map<string, string>, esc: string -> string, missing: Option<string>)
    ensures var l := LastMissing(ps, params, esc);
      ExpandPieces(ps, params, esc, missing).missing == if l.Some? then l else missing
    decreases |ps|
  {
    if |ps| > 0 {
      assert ps == [ps[0]] + ps[1..];
      LastMissingCons(ps[0], ps[1..], params, esc);
      match ps[0]
      case Lit(c) =>
        ExpandPiecesMissing(ps[1..], params, esc, missing);
      case Expr(m, b) =>
        var e := ExpandExpression(m, b, params, esc);
        ExpandPiecesMissing(ps[1..], params, esc, if e.missing.Some? then e.missing else missing);
    }
  }

  /** The error of a whole template is that of its last failing expression,
      and there is none when no expression fails. */
  lemma ExpandReportsLastMissing(tpl: string, params: map<string, string>, esc: string -> string)
    ensures ExpandUriTemplate(tpl, params, esc).missing == LastMissing(Parse(tpl), params, esc)
  {
    ExpandPiecesMissing(Parse(tpl), params, esc, None);
  }

  /** Literal pieces are copied as they are. */
  lemma {:induction false} ExpandLiterals(x: string, ps: seq<Piece>, params: map<string, string>, esc: string -> string, missing: Option<string>)
    ensures var rest := ExpandPieces(ps, params, esc, missing);
      ExpandPieces(Literals(x) + ps, params, esc, missing) == Expansion(x + rest.text, rest.missing)
    decreases |x|
  {
    if |x| > 0 {
      var all := Literals(x) + ps;
      assert all[0] == Lit(x[0]);
      assert all[1..] == Literals(x[1..]) + ps;
      ExpandLiterals(x[1..], ps, params, esc, missing);
      assert x == [x[0]] + x[1..];
    } else {
      assert Literals(x) + ps == ps;
    }
  }

  /** Text without a "{" parses into its characters. */
  lemma ParseLiterals(x: string)
    requires '{' !in x
    ensures Parse(x) == Literals(x)
  {
    ParseLiteralPrefix(x, "");
    assert x + "" == x;
    assert Literals(x) + [] == Literals(x);
  }

  /** Literals alone expand to their text and leave the error as it was. */
  lemma ExpandOnlyLiterals(x: string, params: map<string, string>, esc: string -> string, missing: Option<string>)
    ensures ExpandPieces(Literals(x), params, esc, missing) == Expansion(x, missing)
  {
    ExpandLiterals(x, [], params, esc, missing);
    assert Literals(x) + [] == Literals(x);
    assert x + "" == x;
  }

  /** A template without "{" is returned unchanged with no error. */
  lemma NoExpressionUnchanged(tpl: string, params: map<string, string>, esc: string -> string)
    requires '{' !in tpl
    ensures ExpandUriTemplate(tpl, params, esc) == Expansion(tpl, None)
  {
    ParseLiterals(tpl);
    ExpandOnlyLiterals(tpl, params, esc, None);
  }

  /** An expression followed by literals. */
  lemma ExpandExpressionThenLiterals(m: string, body: string, y: string, params: map<string, string>, esc: string -> string)
    ensures var e := ExpandExpression(m, body, params, esc);
      ExpandPieces([Expr(m, body)] + Literals(y), params, esc, None) == Expansion(e.text + y, e.missing)
  {
    var e := ExpandExpression(m, body, params, esc);
    var ps := [Expr(m, body)] + Literals(y);
    assert ps[0] == Expr(m, body) && ps[1..] == Literals(y);
    ExpandOnlyLiterals(y, params, esc, e.missing);
    assert (if e.missing.Some? then e.missing else None) == e.missing;
  }

  /** Text around an expression is copied verbatim, whatever the expression
      expands to, and the expression's error is the template's. */
  lemma TextAroundExpression(x: string, m: string, body: string, y: string,
                             params: map<string, string>, esc: string -> string)
    requires '{' !in x && '{' !in y
    requires m == "" || m == "?"
    requires |body| > 0 && '}' !in body && '\n' !in body
    requires m == "" ==> body[0] != '?'
    ensures var e := ExpandExpression(m, body, params, esc);
      ExpandUriTemplate(x + Braced(m, body) + y, params, esc) == Expansion(x + e.text + y, e.missing)
  {
    var e := ExpandExpression(m, body, params, esc);
    var tail := Braced(m, body) + y;
    assert x + Braced(m, body) + y == x + tail;
    ParseLiteralPrefix(x, tail);
    ParseExpression(m, body, y);
    ParseLiterals(y);
    var ps := [Expr(m, body)] + Literals(y);
    assert Parse(x + tail) == Literals(x) + ps;
    ExpandLiterals(x, ps, params, esc, None);
    ExpandExpressionThenLiterals(m, body, y, params, esc);
    assert x + (e.text + y) == x + e.text + y;
  }
}
