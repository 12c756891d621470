/** Conditions joined by AND and OR without parentheses: any number of them is read as a left-nested OR of left-nested
    ANDs, and that tree means what the words say. */
module QueryChains {
  import opened RawImage
  import opened QueryLiterals
  import opened QueryParser
  import opened QueryPrinter

  // ---- operands read one after the other ----

  /** `And(And(q0, q1), q2)` and so on. */
  function LeftAnd(qs: seq<Query>): Query
    requires qs != []
  {
    if |qs| == 1 then qs[0] else And(LeftAnd(qs[..|qs| - 1]), qs[|qs| - 1])
  }

  /** `Or(Or(q0, q1), q2)` and so on. */
  function LeftOr(qs: seq<Query>): Query
    requires qs != []
  {
    if |qs| == 1 then qs[0] else Or(LeftOr(qs[..|qs| - 1]), qs[|qs| - 1])
  }

  /** Operand `k` is read from `at[k]` on, up to the token before `at[k + 1]`, at the level of `_parse_not`. */
  predicate ReadsTerm(ts: seq<string>, qs: seq<Query>, at: seq<nat>, k: nat, float: FloatReader)
    requires k < |qs| < |at|
  {
    at[k] <= |ts| && at[k + 1] > 0 && NotAt(ts, at[k], float) == Ok((qs[k], at[k + 1] - 1))
  }

  /** The same at the level of `_parse_and`. */
  predicate ReadsClause(ts: seq<string>, qs: seq<Query>, at: seq<nat>, k: nat, float: FloatReader)
    requires k < |qs| < |at|
  {
    at[k] <= |ts| && at[k + 1] > 0 && AndAt(ts, at[k], float) == Ok((qs[k], at[k + 1] - 1))
  }

  /** The word stands between operands and not behind the last. */
  ghost predicate JoinedBy(ts: seq<string>, word: string, n: nat, at: seq<nat>)
    requires 0 < n < |at|
  {
    && (forall k :: 0 < k < n ==> at[k] > 0 && TokenAt(ts, at[k] - 1, word))
    && at[n] > 0 && !TokenAt(ts, at[n] - 1, word)
  }

  lemma JoinEnds(ts: seq<string>, word: string, n: nat, at: seq<nat>)
    requires 0 < n < |at| && JoinedBy(ts, word, n, at)
    ensures at[n] > 0 && !TokenAt(ts, at[n] - 1, word)
  {}

  lemma AndStep(ts: seq<string>, left: Query, p: nat, right: Query, end: nat, float: FloatReader)
    requires TokenAt(ts, p, "AND") && NotAt(ts, p + 1, float) == Ok((right, end))
    ensures end <= |ts| && AndRest(ts, left, p, float) == AndRest(ts, And(left, right), end, float)
  {}

  lemma OrStep(ts: seq<string>, left: Query, p: nat, right: Query, end: nat, float: FloatReader)
    requires TokenAt(ts, p, "OR") && AndAt(ts, p + 1, float) == Ok((right, end))
    ensures end <= |ts| && OrRest(ts, left, p, float) == OrRest(ts, Or(left, right), end, float)
  {}

  lemma AndStart(ts: seq<string>, pos: nat, q: Query, p: nat, float: FloatReader)
    requires pos <= |ts| && NotAt(ts, pos, float) == Ok((q, p))
    ensures p <= |ts| && AndAt(ts, pos, float) == AndRest(ts, q, p, float)
  {}

  lemma OrStart(ts: seq<string>, pos: nat, q: Query, p: nat, float: FloatReader)
    requires pos <= |ts| && AndAt(ts, pos, float) == Ok((q, p))
    ensures p <= |ts| && OrAt(ts, pos, float) == OrRest(ts, q, p, float)
  {}

  lemma ChainEnds(ts: seq<string>, q: Query, p: nat, float: FloatReader)
    requires p <= |ts|
    ensures !TokenAt(ts, p, "AND") ==> AndRest(ts, q, p, float) == Ok((q, p))
    ensures !TokenAt(ts, p, "OR") ==> OrRest(ts, q, p, float) == Ok((q, p))
  {}

  /** After `n` operands the loop of `_parse_and` holds their left-nested AND. */
  lemma {:induction false} AndUpTo(ts: seq<string>, qs: seq<Query>, at: seq<nat>, n: nat, float: FloatReader)
    requires 0 < n <= |qs| < |at| && at[0] <= |ts| && JoinedBy(ts, "AND", |qs|, at)
    requires forall k :: 0 <= k < |qs| ==> ReadsTerm(ts, qs, at, k, float)
    ensures 0 < at[n] <= |ts| + 1
    ensures AndAt(ts, at[0], float) == AndRest(ts, LeftAnd(qs[..n]), at[n] - 1, float)
  {
    hide NotAt, AndAt, AndRest, TokenAt;
    assert ReadsTerm(ts, qs, at, n - 1, float);
    if n == 1 {
      AndStart(ts, at[0], qs[0], at[1] - 1, float);
    } else {
      AndUpTo(ts, qs, at, n - 1, float);
      AndStep(ts, LeftAnd(qs[..n - 1]), at[n - 1] - 1, qs[n - 1], at[n] - 1, float);
      assert qs[..n][..n - 1] == qs[..n - 1];
    }
  }

  lemma {:induction false} OrUpTo(ts: seq<string>, qs: seq<Query>, at: seq<nat>, n: nat, float: FloatReader)
    requires 0 < n <= |qs| < |at| && at[0] <= |ts| && JoinedBy(ts, "OR", |qs|, at)
    requires forall k :: 0 <= k < |qs| ==> ReadsClause(ts, qs, at, k, float)
    ensures 0 < at[n] <= |ts| + 1
    ensures OrAt(ts, at[0], float) == OrRest(ts, LeftOr(qs[..n]), at[n] - 1, float)
  {
    hide OrAt, AndAt, OrRest, TokenAt;
    assert ReadsClause(ts, qs, at, n - 1, float);
    if n == 1 {
      OrStart(ts, at[0], qs[0], at[1] - 1, float);
    } else {
      OrUpTo(ts, qs, at, n - 1, float);
      OrStep(ts, LeftOr(qs[..n - 1]), at[n - 1] - 1, qs[n - 1], at[n] - 1, float);
      assert qs[..n][..n - 1] == qs[..n - 1];
    }
  }

  /** Operands read one after the other, with AND between them and none behind the last, give their left-nested AND. */
  lemma AndOfMany(ts: seq<string>, qs: seq<Query>, at: seq<nat>, float: FloatReader)
    requires 0 < |qs| < |at| && at[0] <= |ts| && JoinedBy(ts, "AND", |qs|, at)
    requires forall k :: 0 <= k < |qs| ==> ReadsTerm(ts, qs, at, k, float)
    ensures AndAt(ts, at[0], float) == Ok((LeftAnd(qs), at[|qs|] - 1))
  {
    hide *;
    AndUpTo(ts, qs, at, |qs|, float);
    JoinEnds(ts, "AND", |qs|, at);
    assert qs[..|qs|] == qs;
    ChainEnds(ts, LeftAnd(qs), at[|qs|] - 1, float);
  }

  /** The same for OR over what `_parse_and` reads. */
  lemma OrOfMany(ts: seq<string>, qs: seq<Query>, at: seq<nat>, float: FloatReader)
    requires 0 < |qs| < |at| && at[0] <= |ts| && JoinedBy(ts, "OR", |qs|, at)
    requires forall k :: 0 <= k < |qs| ==> ReadsClause(ts, qs, at, k, float)
    ensures OrAt(ts, at[0], float) == Ok((LeftOr(qs), at[|qs|] - 1))
  {
    hide *;
    OrUpTo(ts, qs, at, |qs|, float);
    JoinEnds(ts, "OR", |qs|, at);
    assert qs[..|qs|] == qs;
    ChainEnds(ts, LeftOr(qs), at[|qs|] - 1, float);
  }

  // ---- a query without outer parentheses ----

  /** `q0 AND q1 AND q2`, each operand printed as it stands in a printed tree. */
  function AndTokens(qs: seq<Query>): (ts: seq<string>)
    requires qs != []
  {
    if |qs| == 1 then Print(qs[0]) else AndTokens(qs[..|qs| - 1]) + ["AND"] + Print(qs[|qs| - 1])
  }

  ghost predicate NonEmpty(clauses: seq<seq<Query>>)
  {
    clauses != [] && forall i :: 0 <= i < |clauses| ==> clauses[i] != []
  }

  /** `clause OR clause OR clause`. */
  function OrTokens(clauses: seq<seq<Query>>): (ts: seq<string>)
    requires NonEmpty(clauses)
  {
    if |clauses| == 1 then AndTokens(clauses[0])
    else OrTokens(clauses[..|clauses| - 1]) + ["OR"] + AndTokens(clauses[|clauses| - 1])
  }

  /** The left-nested OR of the left-nested ANDs. */
  function Mix(clauses: seq<seq<Query>>): Query
    requires NonEmpty(clauses)
  {
    LeftOr(seq(|clauses|, i requires 0 <= i < |clauses| => LeftAnd(clauses[i])))
  }

  lemma MixOneMore(clauses: seq<seq<Query>>)
    requires NonEmpty(clauses)
    ensures |clauses| == 1 ==> Mix(clauses) == LeftAnd(clauses[0])
    ensures |clauses| > 1 ==>
      NonEmpty(clauses[..|clauses| - 1])
      && Mix(clauses) == Or(Mix(clauses[..|clauses| - 1]), LeftAnd(clauses[|clauses| - 1]))
  {
    var all := seq(|clauses|, i requires 0 <= i < |clauses| => LeftAnd(clauses[i]));
    if |clauses| > 1 {
      var init := clauses[..|clauses| - 1];
      assert all[..|clauses| - 1] == seq(|init|, i requires 0 <= i < |init| => LeftAnd(init[i]));
    }
  }

  ghost predicate AllParseable(qs: seq<Query>, float: FloatReader)
  {
    forall k :: 0 <= k < |qs| ==> Parseable(qs[k], float)
  }

  /** A printed clause is read as a chain, whatever follows it. */
  lemma {:induction false} ClauseIsRead(qs: seq<Query>, ts: seq<string>, pos: nat, float: FloatReader)
    requires qs != [] && AllParseable(qs, float) && StandsAt(ts, pos, AndTokens(qs))
    ensures pos + |AndTokens(qs)| <= |ts|
    ensures AndAt(ts, pos, float) == AndRest(ts, Reread(LeftAnd(qs), float), pos + |AndTokens(qs)|, float)
  {
    hide NotAt, AndAt, AndRest, StandsAt, TokenAt, Print, Parseable, Reread, LeftAnd;
    var n := |qs|;
    StandsInside(ts, pos, AndTokens(qs));
    RereadLeftAnd(qs, float);
    if n == 1 {
      PrintedIsRead(qs[0], ts, pos, float);
      AndStart(ts, pos, Reread(qs[0], float), pos + |Print(qs[0])|, float);
    } else {
      var init, last := qs[..n - 1], qs[n - 1];
      var p := pos + |AndTokens(init)|;
      StandsJoined(ts, pos, AndTokens(init), "AND", Print(last));
      ClauseIsRead(init, ts, pos, float);
      PrintedIsRead(last, ts, p + 1, float);
      AndStep(ts, Reread(LeftAnd(init), float), p, Reread(last, float), p + 1 + |Print(last)|, float);
    }
  }

  lemma RereadLeftAnd(qs: seq<Query>, float: FloatReader)
    requires qs != []
    ensures |qs| == 1 ==> Reread(LeftAnd(qs), float) == Reread(qs[0], float)
    ensures |qs| > 1 ==>
      Reread(LeftAnd(qs), float) == And(Reread(LeftAnd(qs[..|qs| - 1]), float), Reread(qs[|qs| - 1], float))
  {}

  lemma StandsInside(ts: seq<string>, pos: nat, part: seq<string>)
    ensures StandsAt(ts, pos, part) ==> pos + |part| <= |ts|
  {}

  lemma StandsJoined(ts: seq<string>, pos: nat, l: seq<string>, word: string, r: seq<string>)
    requires StandsAt(ts, pos, l + [word] + r)
    ensures StandsAt(ts, pos, l) && TokenAt(ts, pos + |l|, word) && StandsAt(ts, pos + |l| + 1, r)
  {
    hide StandsAt, TokenAt;
    StandsParts(ts, pos, l + [word], r);
    StandsParts(ts, pos, l, [word]);
    StandsToken(ts, pos + |l|, word);
  }

  /** Tokens and tree of several clauses, from those of the clauses before the last. */
  lemma SplitLast(clauses: seq<seq<Query>>, float: FloatReader)
    requires NonEmpty(clauses)
    ensures clauses != []
    ensures var last := clauses[|clauses| - 1];
      last != []
      && if |clauses| == 1 then OrTokens(clauses) == AndTokens(last) && Mix(clauses) == LeftAnd(last)
         else
           var init := clauses[..|clauses| - 1];
           && NonEmpty(init) && OrTokens(clauses) == OrTokens(init) + ["OR"] + AndTokens(last)
           && Reread(Mix(clauses), float) == Or(Reread(Mix(init), float), Reread(LeftAnd(last), float))
  {
    MixOneMore(clauses);
    hide AndTokens, LeftAnd, LeftOr, Mix;
  }

  lemma {:induction false} ClausesAreRead(clauses: seq<seq<Query>>, ts: seq<string>, pos: nat, float: FloatReader)
    requires NonEmpty(clauses) && forall i :: 0 <= i < |clauses| ==> AllParseable(clauses[i], float)
    requires StandsAt(ts, pos, OrTokens(clauses)) && !TokenAt(ts, pos + |OrTokens(clauses)|, "AND")
    ensures pos + |OrTokens(clauses)| <= |ts|
    ensures OrAt(ts, pos, float) == OrRest(ts, Reread(Mix(clauses), float), pos + |OrTokens(clauses)|, float)
    decreases |clauses|
  {
    hide *;
    var n := |clauses|;
    StandsInside(ts, pos, OrTokens(clauses));
    SplitLast(clauses, float);
    var last := clauses[n - 1];
    var q, end := Reread(LeftAnd(last), float), pos + |OrTokens(clauses)|;
    if n == 1 {
      ClauseIsRead(last, ts, pos, float);
      ChainEnds(ts, q, end, float);
      OrStart(ts, pos, q, end, float);
    } else {
      var init := clauses[..n - 1];
      var p := pos + |OrTokens(init)|;
      StandsJoined(ts, pos, OrTokens(init), "OR", AndTokens(last));
      OrHere(ts, p);
      ClausesAreRead(init, ts, pos, float);
      ClauseIsRead(last, ts, p + 1, float);
      ChainEnds(ts, q, end, float);
      OrStep(ts, Reread(Mix(init), float), p, q, end, float);
    }
  }

  /** A query without outer parentheses parses to the left-nested OR of its left-nested ANDs: no operand is dropped, and
      AND binds before OR. */
  lemma MixIsParsed(clauses: seq<seq<Query>>, float: FloatReader)
    requires NonEmpty(clauses) && forall i :: 0 <= i < |clauses| ==> AllParseable(clauses[i], float)
    ensures Parse(OrTokens(clauses), float) == Ok(Reread(Mix(clauses), float))
    ensures FloatLaws(float) ==> (Parse(OrTokens(clauses), float) == Ok(Mix(clauses)) <==> NoLineBreaks(Mix(clauses)))
  {
    hide *;
    var ts := OrTokens(clauses);
    WholeStands(ts);
    NothingBehind(ts, Reread(Mix(clauses), float), float);
    ClausesAreRead(clauses, ts, 0, float);
    OrTokensSome(clauses);
    ParseAll(ts, Reread(Mix(clauses), float), float);
    if FloatLaws(float) {
      MixParseable(clauses, float);
      RereadIsSame(Mix(clauses), float);
    }
  }

  lemma NothingBehind(ts: seq<string>, q: Query, float: FloatReader)
    ensures !TokenAt(ts, |ts|, "AND") && OrRest(ts, q, |ts|, float) == Ok((q, |ts|))
  {}

  lemma ParseAll(ts: seq<string>, q: Query, float: FloatReader)
    requires ts != [] && OrAt(ts, 0, float) == Ok((q, |ts|))
    ensures Parse(ts, float) == Ok(q)
  {
    hide OrAt;
  }

  lemma {:induction false} OrTokensSome(clauses: seq<seq<Query>>)
    requires NonEmpty(clauses)
    ensures OrTokens(clauses) != []
  {
    var last := clauses[|clauses| - 1];
    assert AndTokens(last) != [];
  }

  lemma {:induction false} LeftAndParseable(qs: seq<Query>, float: FloatReader)
    requires qs != [] && AllParseable(qs, float)
    ensures Parseable(LeftAnd(qs), float)
  {
    if |qs| == 1 {
    } else {
      LeftAndParseable(qs[..|qs| - 1], float);
    }
  }

  lemma {:induction false} MixParseable(clauses: seq<seq<Query>>, float: FloatReader)
    requires NonEmpty(clauses) && forall i :: 0 <= i < |clauses| ==> AllParseable(clauses[i], float)
    ensures Parseable(Mix(clauses), float)
    decreases |clauses|
  {
    hide Mix, LeftAnd, AllParseable;
    MixOneMore(clauses);
    LeftAndParseable(clauses[|clauses| - 1], float);
    if |clauses| == 1 {
    } else {
      MixParseable(clauses[..|clauses| - 1], float);
    }
  }

  // ---- what is refused ----

  /** The first token decides when it is a keyword out of place, and a comparison is refused at the first part that is
      missing or no operator. */
  lemma FirstTokens(ts: seq<string>, float: FloatReader)
    ensures ts == [] ==> Parse(ts, float) == Err(EmptyQuery)
    ensures ts != [] && (ts[0] == "AND" || ts[0] == "OR") ==> Parse(ts, float) == Err(UnexpectedOperator(0))
    ensures |ts| == 1 && (ts[0] == "NOT" || ts[0] == "(") ==> Parse(ts, float) == Err(UnexpectedEnd)
    ensures ts != [] && ts[0] !in ["(", "AND", "OR", "NOT"] ==>
      && (|ts| == 1 ==> Parse(ts, float) == Err(ExpectedOperator(ts[0])))
      && (|ts| > 1 && !IsOperator(ts[1]) ==> Parse(ts, float) == Err(InvalidOperator(1)))
      && (|ts| == 2 && IsOperator(ts[1]) ==> Parse(ts, float) == Err(ExpectedValue(ts[1])))
  {
    if ts != [] {
      hide NotAt, Parse, IsOperator;
      ErrorPasses(ts, 0, float);
      OutOfPlace(ts, 0, float);
      if |ts| == 1 { OpenEnded(ts, float); }
      if ts[0] !in ["(", "AND", "OR", "NOT"] { FieldStarts(ts, 0, float); }
    }
  }

  lemma OperatorsAre(t: string)
    ensures IsOperator(t) <==> t in ["==", "!=", ">", ">=", "<", "<=", "contains", "!contains", "starts", "ends", "in",
      "!in", "~"]
  {}

  lemma ErrorPasses(ts: seq<string>, pos: nat, float: FloatReader)
    requires pos <= |ts|
    ensures NotAt(ts, pos, float).Err? ==> OrAt(ts, pos, float) == Err(NotAt(ts, pos, float).error)
    ensures NotAt(ts, pos, float).Err? && pos == 0 && ts != [] ==> Parse(ts, float) == Err(NotAt(ts, 0, float).error)
  {
    hide NotAt, AndRest, OrRest;
    assert NotAt(ts, pos, float).Err? ==> AndAt(ts, pos, float) == NotAt(ts, pos, float);
  }

  lemma OutOfPlace(ts: seq<string>, pos: nat, float: FloatReader)
    requires pos <= |ts|
    ensures TokenAt(ts, pos, "AND") || TokenAt(ts, pos, "OR") ==> NotAt(ts, pos, float) == Err(UnexpectedOperator(pos))
    ensures pos == |ts| ==> NotAt(ts, pos, float) == Err(UnexpectedEnd)
  {
    hide OrAt, ComparisonAt;
  }

  lemma OpenEnded(ts: seq<string>, float: FloatReader)
    requires |ts| == 1
    ensures ts[0] == "NOT" || ts[0] == "(" ==> NotAt(ts, 0, float) == Err(UnexpectedEnd)
  {
    hide OrAt, ComparisonAt;
    OutOfPlace(ts, 1, float);
    ErrorPasses(ts, 1, float);
  }

  /** Tokens behind a whole query that do not go on with it are refused where they begin. */
  lemma TrailingToken(q: Query, rest: seq<string>, float: FloatReader)
    requires Parseable(q, float) && rest != [] && rest[0] != "AND" && rest[0] != "OR"
    ensures Parse(Print(q) + rest, float) == Err(UnexpectedToken(|Print(q)|))
  {
    hide Parseable, Print, Reread, Parse, StandsAt, ReadsTo, OrAt;
    var ts, r, n := Print(q) + rest, Reread(q, float), |Print(q)|;
    PrefixStands([], Print(q), rest);
    assert ts == [] + Print(q) + rest;
    PrintedIsRead(q, ts, 0, float);
    ReadAlone(ts, 0, r, n, float);
    ParseStops(ts, r, n, float);
  }

  lemma PrefixStands(before: seq<string>, part: seq<string>, rest: seq<string>)
    ensures StandsAt(before + part + rest, |before|, part)
    ensures rest == [] ==> |before + part + rest| == |before| + |part|
    ensures rest != [] ==> (before + part + rest)[|before| + |part|] == rest[0]
  {
    var ts, n := before + part + rest, |before| + |part|;
    assert rest != [] ==> ts[n] == rest[0];
  }

  lemma ReadAlone(ts: seq<string>, pos: nat, q: Query, p: nat, float: FloatReader)
    requires ReadsTo(ts, pos, q, p, float) && !TokenAt(ts, p, "AND") && !TokenAt(ts, p, "OR")
    ensures pos <= |ts| && OrAt(ts, pos, float) == Ok((q, p))
  {
    hide NotAt, AndAt, OrAt, TokenAt;
    AndOfOne(ts, pos, q, p, float);
    OrOfOne(ts, pos, q, p, float);
  }

  lemma ParseStops(ts: seq<string>, q: Query, p: nat, float: FloatReader)
    requires ts != [] && OrAt(ts, 0, float) == Ok((q, p)) && p < |ts|
    ensures Parse(ts, float) == Err(UnexpectedToken(p))
  {
    hide OrAt;
  }

  /** An opening parenthesis asks for its closing one behind the query in it. */
  lemma OpenParenthesis(q: Query, rest: seq<string>, float: FloatReader)
    requires Parseable(q, float) && (rest != [] ==> rest[0] !in ["AND", "OR", ")"])
    ensures Parse(["("] + Print(q) + rest, float) == Err(MissingParenthesis)
  {
    hide Parseable, Print, Reread, Parse, StandsAt, ReadsTo, OrAt, NotAt;
    var ts, r, n := ["("] + Print(q) + rest, Reread(q, float), 1 + |Print(q)|;
    PrefixStands(["("], Print(q), rest);
    PrintedIsRead(q, ts, 1, float);
    ReadAlone(ts, 1, r, n, float);
    NotClosed(ts, r, n, float);
    ErrorPasses(ts, 0, float);
  }

  lemma NotClosed(ts: seq<string>, q: Query, p: nat, float: FloatReader)
    requires ts != [] && ts[0] == "(" && OrAt(ts, 1, float) == Ok((q, p)) && !TokenAt(ts, p, ")")
    ensures NotAt(ts, 0, float) == Err(MissingParenthesis)
  {
    hide OrAt;
  }

  /** A query as one is typed: three conditions and no parenthesis. */
  lemma TypedQuery(float: FloatReader)
    ensures Parse(["Size", ">=", "-10", "AND", "name", "contains", "'x'", "OR", "NOT", "hidden", "==", "TRUE"], float)
      == Ok(Or(And(Comparison("size", ">=", Int(-10)), Comparison("name", "contains", Str("x"))),
               Not(Comparison("hidden", "==", Bool(true)))))
  {
    var ts := ["Size", ">=", "-10", "AND", "name", "contains", "'x'", "OR", "NOT", "hidden", "==", "TRUE"];
    var a, b := Comparison("size", ">=", Int(-10)), Comparison("name", "contains", Str("x"));
    var c := Not(Comparison("hidden", "==", Bool(true)));
    TypedLiterals(float);
    hide ReadLiteral, AndAt, OrAt, Parse, AndRest, OrRest, PrimaryAt;
    assert NotAt(ts, 0, float) == Ok((a, 3)) by { FieldStarts(ts, 0, float); }
    assert NotAt(ts, 4, float) == Ok((b, 7)) by { FieldStarts(ts, 4, float); }
    assert NotAt(ts, 8, float) == Ok((c, 12)) by { HiddenIsRead(ts, float); }
    hide NotAt;
    AndOfMany(ts, [a, b], [0, 4, 8], float);
    AndOfOne(ts, 8, c, 12, float);
    OrOfMany(ts, [And(a, b), c], [0, 8, 13], float);
    ParseAll(ts, Or(And(a, b), c), float);
  }

  lemma HiddenIsRead(ts: seq<string>, float: FloatReader)
    requires |ts| == 12 && ts[8] == "NOT" && ts[9] == "hidden" && ts[10] == "==" && ts[11] == "TRUE"
    requires ReadLiteral("TRUE", float) == Bool(true) && Lower("hidden") == "hidden"
    ensures NotAt(ts, 8, float) == Ok((Not(Comparison("hidden", "==", Bool(true))), 12))
  {
    hide ReadLiteral, Lower;
  }

  lemma TypedLiterals(float: FloatReader)
    ensures ReadLiteral("-10", float) == Int(-10) && ReadLiteral("'x'", float) == Str("x")
    ensures ReadLiteral("TRUE", float) == Bool(true)
    ensures Lower("Size") == "size" && Lower("name") == "name" && Lower("hidden") == "hidden"
  {
    hide *;
    MinusTen(float);
    QuotedX(float);
    TrueInCapitals(float);
    FieldsInLowerCase();
  }

  lemma MinusTen(float: FloatReader)
    ensures ReadLiteral("-10", float) == Int(-10)
  {
    hide ReadLiteral, Decimal;
    IntReadsBack(-10, float);
    assert PrintInt(-10) == "-" + PrintNat(10);
    assert PrintNat(10) == PrintNat(1) + [Digit(0)] && PrintNat(1) == [Digit(1)];
    assert PrintInt(-10) == "-10";
  }

  lemma QuotedX(float: FloatReader)
    ensures ReadLiteral("'x'", float) == Str("x")
  {
    hide Quoted, Lower, IntOf;
    QuotedIs("x");
    assert "'" + "x" + "'" == "'x'";
  }

  lemma TrueInCapitals(float: FloatReader)
    ensures ReadLiteral("TRUE", float) == Bool(true)
  {
    hide IntOf;
    assert Lower("TRUE") == "true";
    assert Quoted("TRUE").None?;
  }

  lemma FieldsInLowerCase()
    ensures Lower("Size") == "size" && Lower("name") == "name" && Lower("hidden") == "hidden"
  {}

  // ---- what the tree means ----

  type Valuation = (string, string, Literal) -> bool

  /** Whether a query holds where `atom` says which comparisons do. */
  predicate Holds(q: Query, atom: Valuation)
  {
    match q
    case Comparison(field, op, literal) => atom(field, op, literal)
    case And(l, r) => Holds(l, atom) && Holds(r, atom)
    case Or(l, r) => Holds(l, atom) || Holds(r, atom)
    case Not(n) => !Holds(n, atom)
  }

  ghost predicate AllHold(qs: seq<Query>, atom: Valuation) { forall k :: 0 <= k < |qs| ==> Holds(qs[k], atom) }

  lemma {:induction false} LeftAndMeans(qs: seq<Query>, atom: Valuation)
    requires qs != []
    ensures Holds(LeftAnd(qs), atom) <==> AllHold(qs, atom)
  {
    var n := |qs|;
    if n == 1 {
    } else {
      LeftAndMeans(qs[..n - 1], atom);
      assert forall k :: 0 <= k < n - 1 ==> qs[..n - 1][k] == qs[k];
    }
  }

  /** The query holds exactly when all operands of one of its clauses do. */
  lemma {:induction false} MixMeans(clauses: seq<seq<Query>>, atom: Valuation)
    requires NonEmpty(clauses)
    ensures Holds(Mix(clauses), atom) <==> exists i :: 0 <= i < |clauses| && AllHold(clauses[i], atom)
    decreases |clauses|
  {
    hide Mix, LeftAnd, AllHold;
    var n := |clauses|;
    MixOneMore(clauses);
    LeftAndMeans(clauses[n - 1], atom);
    if n == 1 {
    } else {
      var init := clauses[..n - 1];
      MixMeans(init, atom);
      assert forall i :: 0 <= i < n - 1 ==> init[i] == clauses[i];
    }
  }
}
