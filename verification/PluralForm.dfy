// The plural-form compiler of src/gettext_plural_form.cpp:15-194: a recursive-descent parser
// from text to functions, with left-associative levels handled by a loop.

module PluralOps {
  import opened Options
  import opened Numbers

  // A compiled form. Calling an empty std::function raises an exception, here None.
  type Function = u64 -> Option<u64>

  datatype Op = MUL | DIV | MOD | ADD | SUB | LE | GE | LT | GT | EQ | NE | AND | OR
  {
    // Precedence: 6 binds tightest (multiplicative), 1 loosest (disjunction).
    function Level(): (level: nat)
      ensures 1 <= level <= 6
    {
      match this
      case MUL => 6 case DIV => 6 case MOD => 6
      case ADD => 5 case SUB => 5
      case LE => 4 case GE => 4 case LT => 4 case GT => 4
      case EQ => 3 case NE => 3
      case AND => 2
      case OR => 1
    }

    function Pattern(): string {
      match this
      case MUL => "*" case DIV => "/" case MOD => "%"
      case ADD => "+" case SUB => "-"
      case LE => "<=" case GE => ">=" case LT => "<" case GT => ">"
      case EQ => "==" case NE => "!="
      case AND => "&&" case OR => "||"
    }
  }

  // The patterns of a level in the order they are tried.
  function OpsAt(level: nat): seq<Op> {
    if level == 6 then [MUL, DIV, MOD]
    else if level == 5 then [ADD, SUB]
    else if level == 4 then [LE, GE, LT, GT]
    else if level == 3 then [EQ, NE]
    else if level == 2 then [AND]
    else if level == 1 then [OR]
    else []
  }

  const MODULUS := 0x1_0000_0000_0000_0000

  function Truth(b: bool): u64 {
    if b then 1 else 0
  }

  // Unsigned 64-bit arithmetic; dividing by zero gives 0.
  function Apply(op: Op, a: u64, b: u64): u64 {
    match op
    case MUL => a * b % MODULUS
    case DIV => if b == 0 then 0 else Quotient(a, b)
    case MOD => if b == 0 then 0 else a % b
    case ADD => (a + b) % MODULUS
    case SUB => (a - b) % MODULUS
    case LE => Truth(a <= b)
    case GE => Truth(a >= b)
    case LT => Truth(a < b)
    case GT => Truth(a > b)
    case EQ => Truth(a == b)
    case NE => Truth(a != b)
    case AND => Truth(a != 0 && b != 0)
    case OR => Truth(a != 0 || b != 0)
  }

  function Quotient(a: u64, b: u64): u64
    requires b != 0
  {
    QuotientFits(a, b);
    a / b
  }

  lemma QuotientFits(a: nat, b: nat)
    requires b != 0
    ensures a / b <= a
  {
    assert a == a / b * b + a % b;
    TimesPositive(a / b, b);
  }

  lemma TimesPositive(q: nat, b: nat)
    requires b != 0
    ensures q <= q * b
  {
  }

  function Identity(): Function {
    (n: u64) => Some(n)
  }

  function Constant(v: u64): Function {
    (n: u64) => Some(v)
  }

  function WrapNot(f: Function): Function {
    (n: u64) => if f(n).None? then None else Some(Truth(f(n).value == 0))
  }

  function WrapOp(op: Op, f: Function, g: Function): Function {
    (n: u64) => if f(n).None? || g(n).None? then None else Some(Apply(op, f(n).value, g(n).value))
  }

  // ternary_op with its three functions bound; any of them may be empty.
  function BindTernary(cond: Option<Function>, val: Option<Function>, alt: Option<Function>): Function {
    (n: u64) => if cond.None? || cond.value(n).None? then None
         else if cond.value(n).value != 0 then Call(val, n)
         else Call(alt, n)
  }

  function Call(f: Option<Function>, n: u64): Option<u64> {
    if f.None? then None else f.value(n)
  }
}

module PluralParser {
  import opened Options
  import opened Numbers
  import opened PluralOps

  predicate IsSpace(c: char) {
    c == ' ' || '\t' <= c <= '\r'
  }

  predicate IsDigit(c: char) {
    '0' <= c <= '9'
  }

  predicate StartsWith(s: string, prefix: string) {
    |prefix| <= |s| && s[..|prefix|] == prefix
  }

  function TrimFront(s: string): (r: string)
    ensures |r| <= |s|
  {
    if s != "" && IsSpace(s[0]) then TrimFront(s[1..]) else s
  }

  function TrimBack(s: string): (r: string)
    ensures |r| <= |s|
  {
    if s != "" && IsSpace(s[|s| - 1]) then TrimBack(s[..|s| - 1]) else s
  }

  // No blanks at either end.
  predicate Tight(s: string) {
    s == "" || (!IsSpace(s[0]) && !IsSpace(s[|s| - 1]))
  }

  lemma {:induction false} TrimBackTight(s: string)
    requires s == "" || !IsSpace(s[0])
    ensures Tight(TrimBack(s))
  {
    if s != "" && IsSpace(s[|s| - 1]) {
      TrimBackTight(s[..|s| - 1]);
    }
  }

  lemma {:induction false} TrimFrontTight(s: string)
    ensures TrimFront(s) == "" || !IsSpace(TrimFront(s)[0])
  {
    if s != "" && IsSpace(s[0]) {
      TrimFrontTight(s[1..]);
    }
  }

  function Trim(s: string): (r: string)
    ensures |r| <= |s| && Tight(r)
  {
    TrimFrontTight(s);
    TrimBackTight(TrimFront(s));
    TrimBack(TrimFront(s))
  }

  function CountDigits(s: string): (k: nat)
    ensures k <= |s|
  {
    if s != "" && IsDigit(s[0]) then 1 + CountDigits(s[1..]) else 0
  }

  function DigitValue(c: char): nat
    requires IsDigit(c)
  {
    c as int - '0' as int
  }

  // The value of a digit string, saturating as wcstoul does.
  function DigitsValue(s: string): nat
    requires forall i :: 0 <= i < |s| ==> IsDigit(s[i])
  {
    if s == "" then 0 else DigitsValue(s[..|s| - 1]) * 10 + DigitValue(s[|s| - 1])
  }

  function Saturate(v: nat): u64 {
    if v < MODULUS then v else MODULUS - 1
  }

  // wcstoul in base 10: leading space, a sign, digits; nothing is consumed without a digit.
  function Wcstoul(s: string): (r: (u64, nat))
    ensures r.1 <= |s|
  {
    var body := TrimFront(s);
    var signed := body != "" && (body[0] == '-' || body[0] == '+');
    var digits := if signed then body[1..] else body;
    var k := CountDigits(digits);
    DigitsCounted(digits);
    if k == 0 then (0, 0)
    else
      var v := DigitsValue(digits[..k]);
      var value := if signed && body[0] == '-' && v < MODULUS then (MODULUS - v) % MODULUS else Saturate(v);
      (value, |s| - |digits| + k)
  }

  lemma DigitsCounted(s: string)
    ensures forall i :: 0 <= i < CountDigits(s) ==> IsDigit(s[i])
    ensures CountDigits(s) < |s| ==> !IsDigit(s[CountDigits(s)])
  {
  }

  // A function, or none on failure, and the text not consumed.
  datatype ParserResult = ParserResult(f: Option<Function>, rest: string)

  function ParseAtomic(str: string): (r: ParserResult)
    ensures |r.rest| <= |str| && (Tight(str) ==> Tight(r.rest))
  {
    if str == "" then ParserResult(None, str)
    else if str[0] == 'n' then ParserResult(Some(Identity()), Trim(str[1..]))
    else
      var (val, end) := Wcstoul(str);
      ParserResult(Some(Constant(val)), Trim(str[end..]))
  }

  function ParseParenthesized(str: string): (r: ParserResult)
    ensures |r.rest| <= |str| && (Tight(str) ==> Tight(r.rest))
    decreases |str|, 1, 0
  {
    if str == "" then ParserResult(None, str)
    else if str[0] != '(' then ParseAtomic(str)
    else
      var result := ParseExpr(str[1..]);
      if result.f.None? then result
      else if result.rest == "" || result.rest[0] != ')' then ParserResult(None, result.rest)
      else ParserResult(result.f, Trim(result.rest[1..]))
  }

  function ParseNegation(str: string): (r: ParserResult)
    ensures |r.rest| <= |str| && (Tight(str) ==> Tight(r.rest))
    decreases |str|, 2, 0
  {
    if str == "" then ParserResult(None, str)
    else if str[0] != '!' then ParseParenthesized(str)
    else
      var result := ParseNegation(Trim(str[1..]));
      if result.f.None? then result else ParserResult(Some(WrapNot(result.f.value)), result.rest)
  }

  // The parser one level tighter than a left-associative level.
  function ParseTighter(level: nat, str: string): (r: ParserResult)
    requires 1 <= level <= 6
    ensures |r.rest| <= |str| && (Tight(str) ==> Tight(r.rest))
    decreases |str|, 5 * (7 - level), 0
  {
    if level == 6 then ParseNegation(str) else ParseLtr(level + 1, str)
  }

  function ReduceSingle(level: nat, op: Op, res: ParserResult): (r: ParserResult)
    requires 1 <= level <= 6 && res.f.Some?
    ensures |r.rest| <= |res.rest| && (Tight(res.rest) ==> Tight(r.rest))
    ensures r.f.Some? ==> |r.rest| < |res.rest|
    decreases |res.rest|, 5 * (7 - level) + 1, 0
  {
    if !StartsWith(res.rest, op.Pattern()) then ParserResult(None, res.rest)
    else
      var next := ParseTighter(level, Trim(res.rest[|op.Pattern()|..]));
      if next.f.None? then next
      else ParserResult(Some(WrapOp(op, res.f.value, next.f.value)), Trim(next.rest))
  }

  // Tries the operators in turn; a failure that consumed something ends the attempt.
  function Reduce(level: nat, ops: seq<Op>, res: ParserResult): (r: ParserResult)
    requires 1 <= level <= 6 && res.f.Some?
    ensures |r.rest| <= |res.rest| && (Tight(res.rest) ==> Tight(r.rest))
    ensures r.f.Some? ==> |r.rest| < |res.rest|
    decreases |res.rest|, 5 * (7 - level) + 2, |ops|
  {
    if ops == [] then ParserResult(None, res.rest)
    else
      var next := ReduceSingle(level, ops[0], res);
      if next.f.Some? || next.rest != res.rest then next else Reduce(level, ops[1..], res)
  }

  // What the loop of parse_ltr makes of its current result.
  function Reductions(level: nat, res: ParserResult): (r: ParserResult)
    requires 1 <= level <= 6 && res.f.Some?
    ensures r.f.Some? && |r.rest| <= |res.rest| && (Tight(res.rest) ==> Tight(r.rest))
    decreases |res.rest|, 5 * (7 - level) + 3, 0
  {
    if res.rest == "" then res
    else
      var next := Reduce(level, OpsAt(level), res);
      if next.f.None? then res else Reductions(level, ParserResult(next.f, Trim(next.rest)))
  }

  function ParseLtr(level: nat, str: string): (r: ParserResult)
    requires 1 <= level <= 6
    ensures |r.rest| <= |str| && (Tight(str) ==> Tight(r.rest))
    decreases |str|, 5 * (7 - level) + 4, 0
  {
    var pres := ParseTighter(level, str);
    if pres.f.None? then pres else Reductions(level, ParserResult(pres.f, Trim(pres.rest)))
  }

  // parse_ltr as the source runs it.
  method RunParseLtr(level: nat, str: string) returns (pres: ParserResult)
    requires 1 <= level <= 6
    ensures pres == ParseLtr(level, str)
  {
    pres := ParseTighter(level, str);
    if pres.f.None? {
      return;
    }
    pres := pres.(rest := Trim(pres.rest));
    while pres.rest != ""
      invariant pres.f.Some?
      invariant Reductions(level, pres) == ParseLtr(level, str)
      decreases |pres.rest|
    {
      var next := Reduce(level, OpsAt(level), pres);
      if next.f.None? {
        return;
      }
      pres := ParserResult(next.f, Trim(next.rest));
    }
  }

  function ParseTernary(str: string): (r: ParserResult)
    ensures |r.rest| <= |str| && (Tight(str) ==> Tight(r.rest))
    decreases |str|, 40, 0
  {
    var cond := ParseLtr(1, str);
    if cond.rest == "" || cond.rest[0] != '?' then cond
    else
      var val := ParseTernary(Trim(cond.rest[1..]));
      if val.rest == "" || val.rest[0] != ':' then ParserResult(None, val.rest)
      else
        var alt := ParseTernary(Trim(val.rest[1..]));
        ParserResult(Some(BindTernary(cond.f, val.f, alt.f)), alt.rest)
  }

  function ParseExpr(str: string): (r: ParserResult)
    ensures |r.rest| <= |str| && Tight(r.rest)
    decreases |str|, 41, 0
  {
    ParseTernary(Trim(str))
  }

  // A form is accepted only when all of the text is consumed.
  function Parse(str: string): Option<Function> {
    var result := ParseExpr(str);
    if result.rest != "" then None else result.f
  }
}
