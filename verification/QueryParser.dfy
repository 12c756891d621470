/** The query parser: recursive descent over a list of tokens. */
module QueryParser {
  import opened RawImage
  import opened QueryLiterals

  datatype Query =
    | Comparison(field: string, op: string, literal: Literal)
    | And(left: Query, right: Query)
    | Or(left: Query, right: Query)
    | Not(node: Query)

  /** The positions name the token the message is about. */
  datatype ParseError =
    | EmptyQuery
    | UnexpectedToken(pos: nat)
    | UnexpectedEnd
    | MissingParenthesis
    | UnexpectedOperator(pos: nat)
    | ExpectedOperator(field: string)
    | InvalidOperator(pos: nat)
    | ExpectedValue(op: string)

  datatype Result<+T> = Ok(value: T) | Err(error: ParseError)

  const OPERATORS: seq<string> := ["==", "!=", ">", ">=", "<", "<=", "contains", "!contains", "starts", "ends", "in",
    "!in", "~"]

  predicate IsOperator(t: string) { t in OPERATORS }

  // ---- the grammar as functions ----

  type Parsed = Result<(Query, nat)>

  predicate Progress(r: Parsed, pos: nat, n: nat) { r.Ok? ==> pos < r.value.1 <= n }

  predicate TokenAt(ts: seq<string>, pos: nat, t: string) { pos < |ts| && ts[pos] == t }

  function OrAt(ts: seq<string>, pos: nat, float: FloatReader): (r: Parsed)
    requires pos <= |ts|
    ensures Progress(r, pos, |ts|)
    decreases |ts| - pos, 5
  {
    var left := AndAt(ts, pos, float);
    if left.Err? then left else OrRest(ts, left.value.0, left.value.1, float)
  }

  function OrRest(ts: seq<string>, left: Query, pos: nat, float: FloatReader): (r: Parsed)
    requires pos <= |ts|
    ensures r.Ok? ==> pos <= r.value.1 <= |ts|
    decreases |ts| - pos, 0
  {
    if !TokenAt(ts, pos, "OR") then Ok((left, pos)) else
    var right := AndAt(ts, pos + 1, float);
    if right.Err? then right else OrRest(ts, Or(left, right.value.0), right.value.1, float)
  }

  function AndAt(ts: seq<string>, pos: nat, float: FloatReader): (r: Parsed)
    requires pos <= |ts|
    ensures Progress(r, pos, |ts|)
    decreases |ts| - pos, 4
  {
    var left := NotAt(ts, pos, float);
    if left.Err? then left else AndRest(ts, left.value.0, left.value.1, float)
  }

  function AndRest(ts: seq<string>, left: Query, pos: nat, float: FloatReader): (r: Parsed)
    requires pos <= |ts|
    ensures r.Ok? ==> pos <= r.value.1 <= |ts|
    decreases |ts| - pos, 0
  {
    if !TokenAt(ts, pos, "AND") then Ok((left, pos)) else
    var right := NotAt(ts, pos + 1, float);
    if right.Err? then right else AndRest(ts, And(left, right.value.0), right.value.1, float)
  }

  function NotAt(ts: seq<string>, pos: nat, float: FloatReader): (r: Parsed)
    requires pos <= |ts|
    ensures Progress(r, pos, |ts|)
    decreases |ts| - pos, 3
  {
    if TokenAt(ts, pos, "NOT") then
      var node := PrimaryAt(ts, pos + 1, float);
      if node.Err? then node else Ok((Not(node.value.0), node.value.1))
    else PrimaryAt(ts, pos, float)
  }

  function PrimaryAt(ts: seq<string>, pos: nat, float: FloatReader): (r: Parsed)
    requires pos <= |ts|
    ensures Progress(r, pos, |ts|)
    decreases |ts| - pos, 2
  {
    if pos >= |ts| then Err(UnexpectedEnd)
    else if ts[pos] == "(" then
      var node := OrAt(ts, pos + 1, float);
      if node.Err? then node
      else if !TokenAt(ts, node.value.1, ")") then Err(MissingParenthesis)
      else Ok((node.value.0, node.value.1 + 1))
    else if ts[pos] == "AND" || ts[pos] == "OR" || ts[pos] == "NOT" then Err(UnexpectedOperator(pos))
    else ComparisonAt(ts, pos, float)
  }

  function ComparisonAt(ts: seq<string>, pos: nat, float: FloatReader): (r: Parsed)
    requires pos < |ts|
    ensures Progress(r, pos, |ts|)
  {
    if pos + 1 >= |ts| then Err(ExpectedOperator(ts[pos]))
    else if !IsOperator(ts[pos + 1]) then Err(InvalidOperator(pos + 1))
    else if pos + 2 >= |ts| then Err(ExpectedValue(ts[pos + 1]))
    else Ok((Comparison(Lower(ts[pos]), ts[pos + 1], ReadLiteral(ts[pos + 2], float)), pos + 3))
  }

  function Parse(ts: seq<string>, float: FloatReader): Result<Query>
  {
    if ts == [] then Err(EmptyQuery) else
    var r := OrAt(ts, 0, float);
    if r.Err? then Err(r.error)
    else if r.value.1 < |ts| then Err(UnexpectedToken(r.value.1))
    else Ok(r.value.0)
  }

  // ---- the parser object ----

  /** What a parse method answers, and where it leaves the position when it succeeds. */
  predicate Answers(r: Result<Query>, pos: nat, spec: Parsed)
  {
    if spec.Ok? then r == Ok(spec.value.0) && pos == spec.value.1 else r == Err(spec.error)
  }

  class QueryParser {
    const tokens: seq<string>
    const float: FloatReader
    var pos: nat

    constructor (tokens: seq<string>, float: FloatReader)
      ensures this.tokens == tokens && this.float == float && pos == 0
    {
      this.tokens, this.float, pos := tokens, float, 0;
    }

    method ParseQuery() returns (r: Result<Query>)
      requires pos == 0
      modifies this
      ensures r == Parse(tokens, float)
    {
      if tokens == [] {
        return Err(EmptyQuery);
      }
      r := ParseOr();
      if r.Ok? && pos < |tokens| {
        return Err(UnexpectedToken(pos));
      }
    }

    method ParseOr() returns (r: Result<Query>)
      requires pos <= |tokens|
      modifies this
      ensures Answers(r, pos, OrAt(tokens, old(pos), float))
      decreases |tokens| - pos, 5
    {
      r := ParseAnd();
      while r.Ok? && pos < |tokens| && tokens[pos] == "OR"
        invariant r.Ok? ==> old(pos) < pos <= |tokens|
        invariant if r.Ok? then OrAt(tokens, old(pos), float) == OrRest(tokens, r.value, pos, float)
                  else OrAt(tokens, old(pos), float) == Err(r.error)
        decreases if r.Ok? then |tokens| - pos + 1 else 0
      {
        var left := r.value;
        pos := pos + 1;
        r := ParseAnd();
        if r.Ok? {
          r := Ok(Or(left, r.value));
        }
      }
    }

    method ParseAnd() returns (r: Result<Query>)
      requires pos <= |tokens|
      modifies this
      ensures Answers(r, pos, AndAt(tokens, old(pos), float))
      decreases |tokens| - pos, 4
    {
      r := ParseNot();
      while r.Ok? && pos < |tokens| && tokens[pos] == "AND"
        invariant r.Ok? ==> old(pos) < pos <= |tokens|
        invariant if r.Ok? then AndAt(tokens, old(pos), float) == AndRest(tokens, r.value, pos, float)
                  else AndAt(tokens, old(pos), float) == Err(r.error)
        decreases if r.Ok? then |tokens| - pos + 1 else 0
      {
        var left := r.value;
        pos := pos + 1;
        r := ParseNot();
        if r.Ok? {
          r := Ok(And(left, r.value));
        }
      }
    }

    method ParseNot() returns (r: Result<Query>)
      requires pos <= |tokens|
      modifies this
      ensures Answers(r, pos, NotAt(tokens, old(pos), float))
      decreases |tokens| - pos, 3
    {
      if pos < |tokens| && tokens[pos] == "NOT" {
        pos := pos + 1;
        r := ParsePrimary();
        if r.Ok? {
          r := Ok(Not(r.value));
        }
        return;
      }
      r := ParsePrimary();
    }

    method ParsePrimary() returns (r: Result<Query>)
      requires pos <= |tokens|
      modifies this
      ensures Answers(r, pos, PrimaryAt(tokens, old(pos), float))
      decreases |tokens| - pos, 2
    {
      if pos >= |tokens| {
        return Err(UnexpectedEnd);
      }
      var token := tokens[pos];
      if token == "(" {
        pos := pos + 1;
        r := ParseOr();
        if r.Ok? {
          if pos >= |tokens| || tokens[pos] != ")" {
            return Err(MissingParenthesis);
          }
          pos := pos + 1;
        }
        return;
      }
      if token in ["AND", "OR", "NOT"] {
        return Err(UnexpectedOperator(pos));
      }
      r := ParseComparison();
    }

    method ParseComparison() returns (r: Result<Query>)
      requires pos < |tokens|
      modifies this
      ensures Answers(r, pos, ComparisonAt(tokens, old(pos), float))
    {
      var field := Lower(tokens[pos]);
      pos := pos + 1;
      if pos >= |tokens| {
        return Err(ExpectedOperator(tokens[pos - 1]));
      }
      var op := tokens[pos];
      if op !in OPERATORS {
        return Err(InvalidOperator(pos));
      }
      pos := pos + 1;
      if pos >= |tokens| {
        return Err(ExpectedValue(op));
      }
      var value := ReadLiteral(tokens[pos], float);
      pos := pos + 1;
      return Ok(Comparison(field, op, value));
    }
  }
}
