/** The printer of the query tree, and why parsing undoes it. */
module QueryPrinter {
  import opened RawImage
  import opened QueryLiterals
  import opened QueryParser

  /** The tokens of the printed form. */
  function Print(q: Query): (ts: seq<string>)
    ensures |ts| >= 3
  {
    match q
    case Comparison(field, op, literal) => [field, op, PrintLiteral(literal)]
    case And(l, r) => Binary(Print(l), "AND", Print(r))
    case Or(l, r) => Binary(Print(l), "OR", Print(r))
    case Not(n) => Negation(Print(n))
  }

  function Binary(l: seq<string>, op: string, r: seq<string>): (ts: seq<string>)
    ensures |ts| == |l| + |r| + 3
  {
    ["("] + l + [op] + r + [")"]
  }

  function Negation(n: seq<string>): (ts: seq<string>)
    ensures |ts| == |n| + 3
  {
    ["NOT", "("] + n + [")"]
  }

  /** The trees the parser builds: fields in lower case and no parenthesis, known operators, readable literals. */
  ghost predicate Parseable(q: Query, float: FloatReader)
  {
    match q
    case Comparison(field, op, literal) =>
      field == Lower(field) && field != "(" && IsOperator(op) && ReadableLiteral(literal, float)
    case And(l, r) => Parseable(l, float) && Parseable(r, float)
    case Or(l, r) => Parseable(l, float) && Parseable(r, float)
    case Not(n) => Parseable(n, float)
  }

  predicate NoLineBreaks(q: Query)
  {
    match q
    case Comparison(_, _, literal) => NoLineBreak(literal)
    case And(l, r) => NoLineBreaks(l) && NoLineBreaks(r)
    case Or(l, r) => NoLineBreaks(l) && NoLineBreaks(r)
    case Not(n) => NoLineBreaks(n)
  }

  /** The tree with every literal printed and read again. */
  function Reread(q: Query, float: FloatReader): Query
  {
    match q
    case Comparison(field, op, literal) => Comparison(field, op, ReadLiteral(PrintLiteral(literal), float))
    case And(l, r) => And(Reread(l, float), Reread(r, float))
    case Or(l, r) => Or(Reread(l, float), Reread(r, float))
    case Not(n) => Not(Reread(n, float))
  }

  lemma {:induction false} RereadIsSame(q: Query, float: FloatReader)
    requires FloatLaws(float) && Parseable(q, float)
    ensures Reread(q, float) == q <==> NoLineBreaks(q)
  {
    hide FloatLaws, ReadableLiteral, NoLineBreak, ReadLiteral, PrintLiteral;
    match q
    case Comparison(_, _, literal) => LiteralReadsBack(literal, float);
    case And(l, r) => RereadIsSame(l, float); RereadIsSame(r, float);
    case Or(l, r) => RereadIsSame(l, float); RereadIsSame(r, float);
    case Not(n) => RereadIsSame(n, float);
  }

  /** `part` stands in `ts` at `pos`. */
  ghost predicate StandsAt(ts: seq<string>, pos: nat, part: seq<string>)
  {
    pos + |part| <= |ts| && ts[pos..pos + |part|] == part
  }

  lemma StandsParts(ts: seq<string>, pos: nat, a: seq<string>, b: seq<string>)
    requires StandsAt(ts, pos, a + b)
    ensures StandsAt(ts, pos, a) && StandsAt(ts, pos + |a|, b)
  {
    assert ts[pos..pos + |a|] == (a + b)[..|a|];
    assert ts[pos + |a|..pos + |a| + |b|] == (a + b)[|a|..];
  }

  lemma StandsToken(ts: seq<string>, pos: nat, t: string)
    requires StandsAt(ts, pos, [t])
    ensures TokenAt(ts, pos, t)
  {
    assert ts[pos..pos + 1][0] == t;
  }

  /** What `left op right` in parentheses is made of. */
  lemma StandsBinary(ts: seq<string>, pos: nat, l: seq<string>, op: string, r: seq<string>)
    requires StandsAt(ts, pos, Binary(l, op, r))
    ensures TokenAt(ts, pos, "(") && StandsAt(ts, pos + 1, l) && TokenAt(ts, pos + 1 + |l|, op)
    ensures StandsAt(ts, pos + 2 + |l|, r) && TokenAt(ts, pos + 2 + |l| + |r|, ")")
  {
    hide StandsAt, TokenAt;
    StandsParts(ts, pos, ["("] + l + [op] + r, [")"]);
    StandsParts(ts, pos, ["("] + l + [op], r);
    StandsParts(ts, pos, ["("] + l, [op]);
    StandsParts(ts, pos, ["("], l);
    StandsToken(ts, pos, "(");
    StandsToken(ts, pos + 1 + |l|, op);
    StandsToken(ts, pos + 2 + |l| + |r|, ")");
  }

  lemma StandsNot(ts: seq<string>, pos: nat, n: seq<string>)
    requires StandsAt(ts, pos, Negation(n))
    ensures TokenAt(ts, pos, "NOT") && TokenAt(ts, pos + 1, "(") && StandsAt(ts, pos + 2, n)
      && TokenAt(ts, pos + 2 + |n|, ")")
  {
    StandsParts(ts, pos, ["NOT", "("] + n, [")"]);
    StandsParts(ts, pos, ["NOT", "("], n);
    assert ["NOT", "("] == ["NOT"] + ["("];
    StandsParts(ts, pos, ["NOT"], ["("]);
    hide StandsAt, TokenAt;
    StandsToken(ts, pos, "NOT");
    StandsToken(ts, pos + 1, "(");
    StandsToken(ts, pos + 2 + |n|, ")");
  }

  /** A lower-case field is none of the keywords. */
  lemma FieldIsNoKeyword(field: string)
    requires field == Lower(field)
    ensures field != "AND" && field != "OR" && field != "NOT"
  {
    assert Lower("AND")[0] == 'a' && Lower("OR")[0] == 'o' && Lower("NOT")[0] == 'n';
  }

  lemma ComparisonStands(ts: seq<string>, pos: nat, field: string, op: string, value: string)
    requires StandsAt(ts, pos, [field, op, value])
    ensures pos + 3 <= |ts| && ts[pos] == field && ts[pos + 1] == op && ts[pos + 2] == value
  {
    var part := ts[pos..pos + 3];
    assert part[0] == ts[pos] && part[1] == ts[pos + 1] && part[2] == ts[pos + 2];
  }

  // one grammar level at a time

  lemma AndOfOne(ts: seq<string>, pos: nat, q: Query, p: nat, float: FloatReader)
    requires pos <= |ts| && NotAt(ts, pos, float) == Ok((q, p)) && !TokenAt(ts, p, "AND")
    ensures AndAt(ts, pos, float) == Ok((q, p))
  {}

  lemma AndOfTwo(ts: seq<string>, pos: nat, l: Query, p1: nat, r: Query, p2: nat, float: FloatReader)
    requires pos <= |ts| && NotAt(ts, pos, float) == Ok((l, p1)) && TokenAt(ts, p1, "AND")
    requires NotAt(ts, p1 + 1, float) == Ok((r, p2)) && !TokenAt(ts, p2, "AND")
    ensures AndAt(ts, pos, float) == Ok((And(l, r), p2))
  {
    assert AndRest(ts, And(l, r), p2, float) == Ok((And(l, r), p2));
  }

  lemma OrOfOne(ts: seq<string>, pos: nat, q: Query, p: nat, float: FloatReader)
    requires pos <= |ts| && AndAt(ts, pos, float) == Ok((q, p)) && !TokenAt(ts, p, "OR")
    ensures OrAt(ts, pos, float) == Ok((q, p))
  {}

  lemma OrOfTwo(ts: seq<string>, pos: nat, l: Query, p1: nat, r: Query, p2: nat, float: FloatReader)
    requires pos <= |ts| && AndAt(ts, pos, float) == Ok((l, p1)) && TokenAt(ts, p1, "OR")
    requires AndAt(ts, p1 + 1, float) == Ok((r, p2)) && !TokenAt(ts, p2, "OR")
    ensures OrAt(ts, pos, float) == Ok((Or(l, r), p2))
  {
    assert OrRest(ts, Or(l, r), p2, float) == Ok((Or(l, r), p2));
  }

  lemma Bracketed(ts: seq<string>, pos: nat, q: Query, p: nat, float: FloatReader)
    requires TokenAt(ts, pos, "(") && OrAt(ts, pos + 1, float) == Ok((q, p)) && TokenAt(ts, p, ")")
    ensures PrimaryAt(ts, pos, float) == Ok((q, p + 1)) && NotAt(ts, pos, float) == Ok((q, p + 1))
  {}

  lemma Negated(ts: seq<string>, pos: nat, q: Query, p: nat, float: FloatReader)
    requires TokenAt(ts, pos, "NOT") && PrimaryAt(ts, pos + 1, float) == Ok((q, p))
    ensures NotAt(ts, pos, float) == Ok((Not(q), p))
  {}

  lemma ClosesHere(ts: seq<string>, pos: nat)
    ensures TokenAt(ts, pos, ")") ==> !TokenAt(ts, pos, "AND") && !TokenAt(ts, pos, "OR")
  {}

  lemma OrHere(ts: seq<string>, pos: nat)
    ensures TokenAt(ts, pos, "OR") ==> !TokenAt(ts, pos, "AND")
  {}

  lemma AndInBrackets(ts: seq<string>, pos: nat, l: Query, p1: nat, r: Query, p2: nat, float: FloatReader)
    requires TokenAt(ts, pos, "(") && TokenAt(ts, p1, "AND") && TokenAt(ts, p2, ")") && pos + 1 <= |ts|
      && p1 + 1 <= |ts|
    requires NotAt(ts, pos + 1, float) == Ok((l, p1)) && NotAt(ts, p1 + 1, float) == Ok((r, p2))
    ensures NotAt(ts, pos, float) == Ok((And(l, r), p2 + 1))
  {
    hide *;
    ClosesHere(ts, p2);
    AndOfTwo(ts, pos + 1, l, p1, r, p2, float);
    OrOfOne(ts, pos + 1, And(l, r), p2, float);
    Bracketed(ts, pos, And(l, r), p2, float);
  }

  lemma OrInBrackets(ts: seq<string>, pos: nat, l: Query, p1: nat, r: Query, p2: nat, float: FloatReader)
    requires TokenAt(ts, pos, "(") && TokenAt(ts, p1, "OR") && TokenAt(ts, p2, ")") && pos + 1 <= |ts| && p1 + 1 <= |ts|
    requires NotAt(ts, pos + 1, float) == Ok((l, p1)) && NotAt(ts, p1 + 1, float) == Ok((r, p2))
    ensures NotAt(ts, pos, float) == Ok((Or(l, r), p2 + 1))
  {
    hide *;
    OrHere(ts, p1);
    ClosesHere(ts, p2);
    AndOfOne(ts, pos + 1, l, p1, float);
    AndOfOne(ts, p1 + 1, r, p2, float);
    OrOfTwo(ts, pos + 1, l, p1, r, p2, float);
    Bracketed(ts, pos, Or(l, r), p2, float);
  }

  lemma NotInBrackets(ts: seq<string>, pos: nat, n: Query, p: nat, float: FloatReader)
    requires TokenAt(ts, pos, "NOT") && TokenAt(ts, pos + 1, "(") && TokenAt(ts, p, ")") && pos + 2 <= |ts|
    requires NotAt(ts, pos + 2, float) == Ok((n, p))
    ensures NotAt(ts, pos, float) == Ok((Not(n), p + 1))
  {
    hide *;
    ClosesHere(ts, p);
    AndOfOne(ts, pos + 2, n, p, float);
    OrOfOne(ts, pos + 2, n, p, float);
    Bracketed(ts, pos + 1, n, p, float);
    Negated(ts, pos, n, p + 1, float);
  }

  /** The two sides read, so is the whole: the printed sides are `l` and `r`. */
  lemma BinaryIsRead(ts: seq<string>, pos: nat, l: seq<string>, ql: Query, r: seq<string>, qr: Query,
                     conjunction: bool, float: FloatReader)
    requires StandsAt(ts, pos, Binary(l, if conjunction then "AND" else "OR", r))
    requires StandsAt(ts, pos + 1, l) ==> ReadsTo(ts, pos + 1, ql, pos + 1 + |l|, float)
    requires StandsAt(ts, pos + 2 + |l|, r) ==> ReadsTo(ts, pos + 2 + |l|, qr, pos + 2 + |l| + |r|, float)
    ensures ReadsTo(ts, pos, if conjunction then And(ql, qr) else Or(ql, qr),
      pos + |Binary(l, if conjunction then "AND" else "OR", r)|, float)
  {
    hide StandsAt, TokenAt, NotAt;
    StandsBinary(ts, pos, l, if conjunction then "AND" else "OR", r);
    TokenInRange(ts, pos + 2 + |l| + |r|, ")");
    if conjunction {
      AndInBrackets(ts, pos, ql, pos + 1 + |l|, qr, pos + 2 + |l| + |r|, float);
    } else {
      OrInBrackets(ts, pos, ql, pos + 1 + |l|, qr, pos + 2 + |l| + |r|, float);
    }
  }

  lemma NegationIsRead(ts: seq<string>, pos: nat, n: seq<string>, q: Query, float: FloatReader)
    requires StandsAt(ts, pos, Negation(n))
    requires StandsAt(ts, pos + 2, n) ==> ReadsTo(ts, pos + 2, q, pos + 2 + |n|, float)
    ensures ReadsTo(ts, pos, Not(q), pos + |Negation(n)|, float)
  {
    hide StandsAt, TokenAt, NotAt;
    StandsNot(ts, pos, n);
    TokenInRange(ts, pos + 2 + |n|, ")");
    NotInBrackets(ts, pos, q, pos + 2 + |n|, float);
  }

  lemma TokenInRange(ts: seq<string>, pos: nat, t: string)
    ensures TokenAt(ts, pos, t) ==> pos < |ts|
  {}

  ghost predicate ReadsTo(ts: seq<string>, pos: nat, q: Query, p: nat, float: FloatReader)
  {
    pos <= |ts| && NotAt(ts, pos, float) == Ok((q, p))
  }

  /** A printed tree is read in one piece at the level of `_parse_not`, whatever follows it. */
  lemma {:induction false} PrintedIsRead(q: Query, ts: seq<string>, pos: nat, float: FloatReader)
    requires Parseable(q, float) && StandsAt(ts, pos, Print(q))
    ensures ReadsTo(ts, pos, Reread(q, float), pos + |Print(q)|, float)
    decreases q, 1
  {
    hide StandsAt, ReadsTo, Binary, Negation, ReadLiteral, PrintLiteral, Lower;
    match q
    case Comparison(field, op, literal) => ComparisonIsRead(field, op, literal, ts, pos, float);
    case And(_, _) => SidesAreRead(q, ts, pos, float);
    case Or(_, _) => SidesAreRead(q, ts, pos, float);
    case Not(n) =>
      if StandsAt(ts, pos + 2, Print(n)) { PrintedIsRead(n, ts, pos + 2, float); }
      NegationIsRead(ts, pos, Print(n), Reread(n, float), float);
  }

  lemma {:induction false} SidesAreRead(q: Query, ts: seq<string>, pos: nat, float: FloatReader)
    requires Parseable(q, float) && (q.And? || q.Or?) && StandsAt(ts, pos, Print(q))
    ensures ReadsTo(ts, pos, Reread(q, float), pos + |Print(q)|, float)
    decreases q, 0
  {
    hide *;
    var l, r, conjunction := q.left, q.right, q.And?;
    Sides(q, float);
    if StandsAt(ts, pos + 1, Print(l)) { PrintedIsRead(l, ts, pos + 1, float); }
    if StandsAt(ts, pos + 2 + |Print(l)|, Print(r)) { PrintedIsRead(r, ts, pos + 2 + |Print(l)|, float); }
    BinaryIsRead(ts, pos, Print(l), Reread(l, float), Print(r), Reread(r, float), conjunction, float);
  }

  lemma Sides(q: Query, float: FloatReader)
    requires Parseable(q, float) && (q.And? || q.Or?)
    ensures Parseable(q.left, float) && Parseable(q.right, float)
    ensures Print(q) == Binary(Print(q.left), if q.And? then "AND" else "OR", Print(q.right))
    ensures Reread(q, float)
      == if q.And? then And(Reread(q.left, float), Reread(q.right, float)) else Or(Reread(q.left, float),
        Reread(q.right, float))
  {}

  lemma ComparisonIsRead(field: string, op: string, literal: Literal, ts: seq<string>, pos: nat, float: FloatReader)
    requires Parseable(Comparison(field, op, literal), float) && StandsAt(ts, pos, [field, op, PrintLiteral(literal)])
    ensures ReadsTo(ts, pos, Reread(Comparison(field, op, literal), float), pos + 3, float)
  {
    ComparisonStands(ts, pos, field, op, PrintLiteral(literal));
    FieldIsNoKeyword(field);
    hide StandsAt, ReadLiteral, PrintLiteral, Lower, ReadableLiteral;
    FieldStarts(ts, pos, float);
  }

  /** A token that is neither a parenthesis nor a keyword starts a comparison. */
  lemma FieldStarts(ts: seq<string>, pos: nat, float: FloatReader)
    requires pos < |ts| && ts[pos] != "(" && ts[pos] != "AND" && ts[pos] != "OR" && ts[pos] != "NOT"
    ensures NotAt(ts, pos, float) == ComparisonAt(ts, pos, float)
  {
    hide ComparisonAt, OrAt;
  }

  /** Parsing what was printed gives the tree with its literals printed and read again. */
  lemma PrintThenParse(q: Query, float: FloatReader)
    requires Parseable(q, float)
    ensures Parse(Print(q), float) == Ok(Reread(q, float))
  {
    hide *;
    var ts := Print(q);
    WholeStands(ts);
    PrintedIsRead(q, ts, 0, float);
    ParseWhole(ts, Reread(q, float), float);
  }

  lemma WholeStands(ts: seq<string>)
    ensures StandsAt(ts, 0, ts)
  {}

  lemma ParseWhole(ts: seq<string>, q: Query, float: FloatReader)
    requires ts != [] && ReadsTo(ts, 0, q, |ts|, float)
    ensures Parse(ts, float) == Ok(q)
  {
    hide NotAt, AndAt, OrAt;
    AndOfOne(ts, 0, q, |ts|, float);
    OrOfOne(ts, 0, q, |ts|, float);
  }

  /** So printing is undone by parsing exactly when no string literal holds a line break. */
  lemma RoundTrip(q: Query, float: FloatReader)
    requires FloatLaws(float) && Parseable(q, float)
    ensures Parse(Print(q), float) == Ok(q) <==> NoLineBreaks(q)
  {
    hide FloatLaws, Parseable, Parse, Print, Reread, NoLineBreaks;
    PrintThenParse(q, float);
    RereadIsSame(q, float);
  }

  // ---- what the parser returns is parseable ----

  ghost predicate Good(r: Parsed, float: FloatReader) { forall q :: r.Ok? && q == r.value.0 ==> Parseable(q, float) }

  lemma {:induction false} OrGood(ts: seq<string>, pos: nat, float: FloatReader)
    requires FloatLaws(float) && pos <= |ts|
    ensures Good(OrAt(ts, pos, float), float)
    decreases |ts| - pos, 5
  {
    hide FloatLaws;
    AndGood(ts, pos, float);
    var left := AndAt(ts, pos, float);
    if left.Ok? { OrRestGood(ts, left.value.0, left.value.1, float); }
  }

  lemma {:induction false} OrRestGood(ts: seq<string>, left: Query, pos: nat, float: FloatReader)
    requires FloatLaws(float) && pos <= |ts| && Parseable(left, float)
    ensures Good(OrRest(ts, left, pos, float), float)
    decreases |ts| - pos, 0
  {
    hide FloatLaws;
    if TokenAt(ts, pos, "OR") {
      AndGood(ts, pos + 1, float);
      var right := AndAt(ts, pos + 1, float);
      if right.Ok? { OrRestGood(ts, Or(left, right.value.0), right.value.1, float); }
    }
  }

  lemma {:induction false} AndGood(ts: seq<string>, pos: nat, float: FloatReader)
    requires FloatLaws(float) && pos <= |ts|
    ensures Good(AndAt(ts, pos, float), float)
    decreases |ts| - pos, 4
  {
    hide FloatLaws;
    NotGood(ts, pos, float);
    var left := NotAt(ts, pos, float);
    if left.Ok? { AndRestGood(ts, left.value.0, left.value.1, float); }
  }

  lemma {:induction false} AndRestGood(ts: seq<string>, left: Query, pos: nat, float: FloatReader)
    requires FloatLaws(float) && pos <= |ts| && Parseable(left, float)
    ensures Good(AndRest(ts, left, pos, float), float)
    decreases |ts| - pos, 0
  {
    hide FloatLaws;
    if TokenAt(ts, pos, "AND") {
      NotGood(ts, pos + 1, float);
      var right := NotAt(ts, pos + 1, float);
      if right.Ok? { AndRestGood(ts, And(left, right.value.0), right.value.1, float); }
    }
  }

  lemma {:induction false} NotGood(ts: seq<string>, pos: nat, float: FloatReader)
    requires FloatLaws(float) && pos <= |ts|
    ensures Good(NotAt(ts, pos, float), float)
    decreases |ts| - pos, 3
  {
    hide FloatLaws;
    var next := if TokenAt(ts, pos, "NOT") then pos + 1 else pos;
    PrimaryGood(ts, next, float);
    var r := PrimaryAt(ts, next, float);
    if r.Ok? { assert Parseable(r.value.0, float); }
  }

  lemma {:induction false} PrimaryGood(ts: seq<string>, pos: nat, float: FloatReader)
    requires FloatLaws(float) && pos <= |ts|
    ensures Good(PrimaryAt(ts, pos, float), float)
    decreases |ts| - pos, 2
  {
    if pos < |ts| {
      if ts[pos] == "(" {
        hide FloatLaws;
        OrGood(ts, pos + 1, float);
      } else if pos + 2 < |ts| {
        ReadIsReadable(ts[pos + 2], float);
        LowerTwice(ts[pos]);
        LowerKeepsParenthesis(ts[pos]);
      }
    }
  }

  lemma LowerKeepsParenthesis(t: string)
    ensures Lower(t) == "(" ==> t == "("
  {
    if Lower(t) == "(" {
      assert |t| == 1 && LowerChar(t[0]) == '(';
    }
  }

  /** For every query the parser accepts, printing the tree and parsing again gives the same tree
      exactly when none of its string literals holds a line break. */
  lemma ParsePrintParse(ts: seq<string>, float: FloatReader)
    requires FloatLaws(float) && Parse(ts, float).Ok?
    ensures var q := Parse(ts, float).value;
      Parse(Print(q), float) == Ok(q) <==> NoLineBreaks(q)
  {
    OrGood(ts, 0, float);
    hide FloatLaws, OrAt, NoLineBreaks, Print;
    RoundTrip(Parse(ts, float).value, float);
  }
}
