/** Literals of the query language: how a token is read as a value, and how a value is printed. */
module QueryLiterals {
  import opened RawImage

  /** A float value stands here as the text it prints as. */
  datatype Literal = Str(s: string) | Bool(b: bool) | Null | Int(n: int) | Float(text: string)

  // ---- tokens ----

  function LowerChar(c: char): char { if 'A' <= c <= 'Z' then c - 'A' + 'a' else c }

  function Lower(s: string): (r: string)
    ensures |r| == |s| && forall i :: 0 <= i < |s| ==> r[i] == LowerChar(s[i])
  {
    seq(|s|, i requires 0 <= i < |s| => LowerChar(s[i]))
  }

  lemma LowerTwice(s: string)
    ensures Lower(Lower(s)) == Lower(s)
  {}

  predicate IsQuote(c: char) { c == '\'' || c == '"' }

  /** The string pattern: a quote, no line break, a quote; the end may be followed by one line break. */
  function Quoted(t: string): Option<string>
  {
    var body := if t != [] && t[|t| - 1] == '\n' then t[..|t| - 1] else t;
    if |body| >= 2 && IsQuote(body[0]) && IsQuote(body[|body| - 1]) && '\n' !in body[1..|body| - 1]
    then Some(body[1..|body| - 1]) else None
  }

  // ---- integers ----

  predicate IsDigit(c: char) { '0' <= c <= '9' }

  function DigitValue(c: char): nat
    requires IsDigit(c)
  {
    (c - '0') as nat
  }

  /** Decimal digits, with single underscores allowed between them. */
  function Decimal(s: string): Option<nat>
  {
    if s == [] || !IsDigit(s[|s| - 1]) then None
    else
      var init := s[..|s| - 1];
      if init == [] then Some(DigitValue(s[|s| - 1]))
      else
        var body := if init[|init| - 1] == '_' then init[..|init| - 1] else init;
        var v := Decimal(body);
        if v.None? then None else Some(10 * v.value + DigitValue(s[|s| - 1]))
  }

  /** `int(token)`. */
  function IntOf(t: string): Option<int>
  {
    if t != [] && (t[0] == '-' || t[0] == '+') then
      var v := Decimal(t[1..]);
      if v.None? then None else
      var n: int := v.value;
      Some(if t[0] == '-' then -n else n)
    else
      var v := Decimal(t);
      if v.None? then None else Some(v.value)
  }

  function Digit(d: nat): (c: char)
    requires d < 10
    ensures IsDigit(c) && DigitValue(c) == d
  {
    '0' + d as char
  }

  function PrintNat(n: nat): (s: string)
    ensures s != [] && forall i :: 0 <= i < |s| ==> IsDigit(s[i])
  {
    if n < 10 then [Digit(n)] else PrintNat(n / 10) + [Digit(n % 10)]
  }

  /** `str(n)`. */
  function PrintInt(n: int): string { if n < 0 then "-" + PrintNat(-n) else PrintNat(n) }

  lemma {:induction false} DecimalOfPrint(n: nat)
    ensures Decimal(PrintNat(n)) == Some(n)
  {
    if n < 10 {
    } else {
      var s, head := PrintNat(n), PrintNat(n / 10);
      DecimalOfPrint(n / 10);
      assert s[..|s| - 1] == head && s[|s| - 1] == Digit(n % 10);
    }
  }

  lemma IntOfPrint(n: int)
    ensures IntOf(PrintInt(n)) == Some(n)
  {
    hide Decimal, PrintNat;
    if n < 0 {
      DecimalOfPrint(-n);
      assert PrintInt(n)[1..] == PrintNat(-n);
    } else {
      DecimalOfPrint(n);
      assert IsDigit(PrintNat(n)[0]);
    }
  }

  // ---- reading and printing a literal ----

  /** `float(token)` as far as the parser sees it: the text the value prints as, or nothing. */
  type FloatReader = string -> Option<string>

  predicate IsWord(t: string)
  {
    Lower(t) == "true" || Lower(t) == "false" || Lower(t) == "null" || Lower(t) == "none"
  }

  /** What Python guarantees of `float` and its `repr`: the printed text reads back as the same value and as nothing
      but a float, and text that starts with a quote is no float. */
  ghost predicate FloatLaws(float: FloatReader)
  {
    && (forall t :: float(t).Some? ==> FloatText(float, float(t).value))
    && (forall t :: t != "" && IsQuote(t[0]) ==> float(t).None?)
  }

  predicate FloatText(float: FloatReader, r: string)
  {
    float(r) == Some(r) && Quoted(r).None? && !IsWord(r) && IntOf(r).None?
  }

  function ReadLiteral(t: string, float: FloatReader): Literal
  {
    if Quoted(t).Some? then Str(Quoted(t).value)
    else if Lower(t) == "true" then Bool(true)
    else if Lower(t) == "false" then Bool(false)
    else if Lower(t) == "null" || Lower(t) == "none" then Null
    else if IntOf(t).Some? then Int(IntOf(t).value)
    else if float(t).Some? then Float(float(t).value)
    else Str(t)
  }

  function PrintLiteral(v: Literal): string
  {
    match v
    case Str(s) => "'" + s + "'"
    case Bool(b) => if b then "True" else "False"
    case Null => "None"
    case Int(n) => PrintInt(n)
    case Float(text) => text
  }

  predicate NoLineBreak(v: Literal) { v.Str? ==> '\n' !in v.s }

  /** A float literal carries a text `float` can have given. */
  predicate ReadableLiteral(v: Literal, float: FloatReader) { v.Float? ==> FloatText(float, v.text) }

  lemma ReadIsReadable(t: string, float: FloatReader)
    requires FloatLaws(float)
    ensures ReadableLiteral(ReadLiteral(t, float), float)
  {}

  /** The words, in any mixture of capitals and small letters. */
  lemma WordsAreRead(t: string, float: FloatReader)
    ensures Lower(t) == "true" ==> ReadLiteral(t, float) == Bool(true)
    ensures Lower(t) == "false" ==> ReadLiteral(t, float) == Bool(false)
    ensures Lower(t) == "null" || Lower(t) == "none" ==> ReadLiteral(t, float) == Null
  {
    hide IntOf;
    if IsWord(t) { assert !IsQuote(Lower(t)[0]) && Lower(t)[0] == LowerChar(t[0]); }
  }

  /** Quotes of either kind on either side make a string of what is between them. */
  lemma QuotesMakeStrings(open: char, s: string, close: char, float: FloatReader)
    requires open in "'\"" && close in "'\"" && '\n' !in s
    ensures ReadLiteral([open] + s + [close], float) == Str(s)
  {
    var t := [open] + s + [close];
    assert t[1..|t| - 1] == s && t[0] == open && t[|t| - 1] == close;
  }

  lemma StringReadsBack(s: string, float: FloatReader)
    requires FloatLaws(float)
    ensures ReadLiteral(PrintLiteral(Str(s)), float) == Str(if '\n' in s then "'" + s + "'" else s)
  {
    var t := "'" + s + "'";
    QuotedIs(s);
    hide Quoted;
    if '\n' in s {
      assert Lower(t)[0] == '\'';
      NotANumber(t);
      hide IntOf, Lower;
      assert IsQuote(t[0]);
    }
  }

  lemma QuotedIs(s: string)
    ensures Quoted("'" + s + "'") == if '\n' in s then None else Some(s)
  {
    var t := "'" + s + "'";
    assert t[1..|t| - 1] == s && t[0] == '\'' && t[|t| - 1] == '\'';
  }

  lemma NotANumber(t: string)
    requires t != "" && IsQuote(t[0])
    ensures IntOf(t).None?
  {
    FirstIsDigit(t);
  }

  lemma {:induction false} FirstIsDigit(t: string)
    ensures Decimal(t).Some? ==> t != "" && IsDigit(t[0])
  {
    if t == "" {
    } else {
      var init := t[..|t| - 1];
      if init != [] {
        FirstIsDigit(if init[|init| - 1] == '_' then init[..|init| - 1] else init);
      }
    }
  }

  lemma IntReadsBack(n: int, float: FloatReader)
    ensures ReadLiteral(PrintLiteral(Int(n)), float) == Int(n)
  {
    hide Decimal, PrintNat, IntOf;
    var t := PrintInt(n);
    IntOfPrint(n);
    assert t[0] == '-' || IsDigit(t[0]);
    assert Lower(t)[0] == t[0];
    assert t[|t| - 1] != '\n' && !IsQuote(t[0]);
  }

  /** Printing and reading a literal gives it back, unless it is a string with a line break in it. */
  lemma LiteralReadsBack(v: Literal, float: FloatReader)
    requires FloatLaws(float) && ReadableLiteral(v, float)
    ensures ReadLiteral(PrintLiteral(v), float) == v <==> NoLineBreak(v)
  {
    match v
    case Str(s) => StringReadsBack(s, float);
    case Bool(b) => assert Lower("True") == "true" && Lower("False") == "false";
    case Null => assert Lower("None") == "none";
    case Int(n) => IntReadsBack(n, float);
    case Float(text) =>
  }
}
