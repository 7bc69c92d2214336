// Written plural forms: parsing a form gives a function with the form's value. The forms are all
// the texts the parser takes to pieces: those of sections 6.5.5 to 6.5.15 of ISO/IEC 9899:2011,
// and those with operands and arms left out that it takes as well.

module PluralSyntax {
  import opened Options
  import opened Numbers
  import opened PluralOps
  import opened PluralParser

  // A written form: every token, with the blanks between them and all parentheses.
  datatype Written =
    | Name
    | Number(sign: string, digits: string)
    // an operand that is not there, before some other text
    | Nothing
    | Paren(before: string, inner: Written, after: string)
    | Not(gap: string, operand: Written)
    | Infix(op: Op, l: Written, before: string, after: string, r: Written)
    | Ternary(cond: Written, s1: string, s2: string, yes: Written, s3: string, s4: string, no: Written)
    // the forms that give no function: the end of the text, a parenthesis that is not closed, and a
    // condition with one arm
    | Missing
    | Unclosed(before: string, inner: Written)
    | NoColon(cond: Written, s1: string, s2: string, yes: Written)

  predicate Fails(w: Written) {
    match w
    case Not(_, e) => Fails(e)
    case Missing => true
    case Unclosed(_, _) => true
    case NoColon(_, _, _, _) => true
    case _ => false
  }

  function Tightness(w: Written): nat {
    match w
    case Not(_, _) => 7
    case Infix(op, _, _, _, _) => op.Level()
    case Ternary(_, _, _, _, _, _, _) => 0
    case NoColon(_, _, _, _) => 0
    case _ => 8
  }

  // The text of a form with the rest of the text after it.
  function Spell(w: Written, rest: string): string {
    match w
    case Name => "n" + rest
    case Number(sign, ds) => sign + (ds + rest)
    case Nothing => rest
    case Paren(s1, e, s2) => "(" + (s1 + Spell(e, s2 + (")" + rest)))
    case Not(s1, e) => "!" + (s1 + Spell(e, rest))
    case Infix(op, l, s1, s2, r) => Spell(l, s1 + (op.Pattern() + (s2 + Spell(r, rest))))
    case Ternary(c, s1, s2, a, s3, s4, b) =>
      Spell(c, s1 + ("?" + (s2 + Spell(a, s3 + (":" + (s4 + Spell(b, rest)))))))
    case Missing => rest
    case Unclosed(s1, e) => "(" + (s1 + Spell(e, rest))
    case NoColon(c, s1, s2, a) => Spell(c, s1 + ("?" + (s2 + Spell(a, rest))))
  }

  function Text(w: Written): string {
    Spell(w, "")
  }

  predicate Blank(s: string) {
    forall i :: 0 <= i < |s| ==> IsSpace(s[i])
  }

  predicate AllDigits(s: string) {
    forall i :: 0 <= i < |s| ==> IsDigit(s[i])
  }

  predicate StartsWithDigit(s: string) {
    s != "" && IsDigit(s[0])
  }

  // Text that goes on with no operand.
  predicate NoOperand(s: string) {
    && s != "" && StartsTight(s) && s[0] != 'n' && s[0] != '(' && s[0] != '!'
    && !StartsWithDigit(s) && !((s[0] == '+' || s[0] == '-') && StartsWithDigit(s[1..]))
  }

  // Blanks before a form; none at the end of the text.
  predicate Gap(s: string, w: Written) {
    Blank(s) && (w.Missing? ==> s == "")
  }

  // No operator of the given level or tighter starts t, nor "?" where a ternary could go on.
  ghost predicate Stops(level: nat, t: string) {
    && (forall op: Op :: op.Level() >= level ==> !StartsWith(t, op.Pattern()))
    && (level == 0 ==> !StartsWith(t, "?"))
  }

  // w can be read where the rest follows it. Operands that are not parenthesised bind at least as
  // tightly as their place demands: the left operand of an infix level may be of the same level, the
  // right one may not. Only the arms of a ternary may fail.
  ghost predicate Reads(w: Written, rest: string) {
    match w
    case Name => true
    case Number(sign, ds) =>
      (sign == "" || sign == "+" || sign == "-") && ds != "" && AllDigits(ds) && !StartsWithDigit(rest)
    case Nothing => NoOperand(rest)
    case Paren(s1, e, s2) => Blank(s1) && Blank(s2) && !Fails(e) && Reads(e, s2 + (")" + rest))
    case Not(s1, e) => Gap(s1, e) && Tightness(e) >= 7 && Reads(e, rest)
    case Infix(op, l, s1, s2, r) =>
      && Blank(s1) && Blank(s2) && !Fails(l) && !Fails(r)
      && Tightness(l) >= op.Level() && Tightness(r) > op.Level()
      && Reads(r, rest) && Reads(l, s1 + (op.Pattern() + (s2 + Spell(r, rest))))
      && OperatorEnds(op, s2 + Spell(r, rest))
    case Ternary(c, s1, s2, a, s3, s4, b) =>
      && Blank(s1) && Blank(s2) && Blank(s3) && Gap(s4, b) && !Fails(c) && Tightness(c) >= 1
      && Reads(b, rest) && Reads(a, s3 + (":" + (s4 + Spell(b, rest))))
      && Reads(c, s1 + ("?" + (s2 + Spell(a, s3 + (":" + (s4 + Spell(b, rest)))))))
    case Missing => rest == ""
    case Unclosed(s1, e) =>
      && Gap(s1, e) && Reads(e, rest) && Stops(0, TrimFront(rest))
      && (Fails(e) || !StartsWith(TrimFront(rest), ")"))
    case NoColon(c, s1, s2, a) =>
      && Blank(s1) && Gap(s2, a) && !Fails(c) && Tightness(c) >= 1
      && Reads(a, rest) && !StartsWith(TrimFront(rest), ":")
      && Reads(c, s1 + ("?" + (s2 + Spell(a, rest))))
  }

  // "<" and ">" are not the beginnings of "<=" and ">=".
  predicate OperatorEnds(op: Op, u: string) {
    op.LT? || op.GT? ==> !StartsWith(u, "=")
  }

  function NumberValue(sign: string, ds: string): u64 {
    if !AllDigits(ds) then 0
    else
      var v := DigitsValue(ds);
      if sign == "-" && v < MODULUS then (MODULUS - v) % MODULUS else Saturate(v)
  }

  // The value of a form: an operand that is not there is 0, an arm that fails has none.
  function Value(w: Written, n: u64): Option<u64> {
    match w
    case Name => Some(n)
    case Number(sign, ds) => Some(NumberValue(sign, ds))
    case Nothing => Some(0)
    case Paren(_, e, _) => Value(e, n)
    case Not(_, e) => if Value(e, n).None? then None else Some(Truth(Value(e, n).value == 0))
    case Infix(op, l, _, _, r) =>
      if Value(l, n).None? || Value(r, n).None? then None else Some(Apply(op, Value(l, n).value, Value(r, n).value))
    case Ternary(c, _, _, a, _, _, b) =>
      if Value(c, n).None? then None else if Value(c, n).value != 0 then Value(a, n) else Value(b, n)
    case Missing => None
    case Unclosed(_, _) => None
    case NoColon(_, _, _, _) => None
  }

  lemma FailsHasNoValue(w: Written, n: u64)
    requires Fails(w)
    ensures Value(w, n) == None
  {
  }

  ghost predicate Computes(f: Function, w: Written) {
    forall n: u64 :: f(n) == Value(w, n)
  }

  // ---- blanks

  predicate EndsTight(s: string) {
    s == "" || !IsSpace(s[|s| - 1])
  }

  predicate StartsTight(s: string) {
    s == "" || !IsSpace(s[0])
  }

  lemma {:induction false} TrimFrontBlank(b: string, s: string)
    requires Blank(b) && StartsTight(s)
    ensures TrimFront(b + s) == s
  {
    if b == "" {
      assert b + s == s;
    } else {
      assert (b + s)[1..] == b[1..] + s;
      TrimFrontBlank(b[1..], s);
    }
  }

  lemma {:induction false} TrimBackBlank(s: string, b: string)
    requires Blank(b) && EndsTight(s)
    ensures TrimBack(s + b) == s
  {
    if b == "" {
      assert s + b == s;
    } else {
      assert (s + b)[..|s + b| - 1] == s + b[..|b| - 1];
      TrimBackBlank(s, b[..|b| - 1]);
    }
  }

  lemma {:induction false} TrimFrontIsSuffix(s: string)
    ensures StartsTight(TrimFront(s))
    ensures EndsTight(s) ==> EndsTight(TrimFront(s)) && Trim(s) == TrimFront(s)
    ensures s != "" && EndsTight(s) ==> TrimFront(s) != ""
  {
    if s != "" && IsSpace(s[0]) {
      TrimFrontIsSuffix(s[1..]);
    }
  }

  lemma TrimTight(s: string)
    requires StartsTight(s) && EndsTight(s)
    ensures Trim(s) == s
  {
  }

  // Blanks in front of a text that ends tight are all that trimming removes.
  lemma TrimAfter(b: string, s: string)
    requires Blank(b) && StartsTight(s) && EndsTight(s)
    ensures Trim(b + s) == s
  {
    TrimFrontBlank(b, s);
  }

  // ---- parsing at a level

  function ParseAt(level: nat, s: string): ParserResult
    requires level <= 8
  {
    if level == 0 then ParseTernary(s)
    else if level <= 6 then ParseLtr(level, s)
    else if level == 7 then ParseNegation(s)
    else ParseParenthesized(s)
  }

  lemma SingleMisses(level: nat, op: Op, res: ParserResult)
    requires 1 <= level <= 6 && res.f.Some? && !StartsWith(res.rest, op.Pattern())
    ensures ReduceSingle(level, op, res) == ParserResult(None, res.rest)
  {
  }

  lemma {:induction false} ReduceMisses(level: nat, ops: seq<Op>, res: ParserResult)
    requires 1 <= level <= 6 && res.f.Some?
    requires forall op :: op in ops ==> !StartsWith(res.rest, op.Pattern())
    ensures Reduce(level, ops, res) == ParserResult(None, res.rest)
  {
    hide ReduceSingle, StartsWith;
    if ops != [] {
      SingleMisses(level, ops[0], res);
      ReduceMisses(level, ops[1..], res);
    }
  }

  // The operator written is the first of its level to match.
  lemma ReduceHits(op: Op, res: ParserResult, u: string)
    requires res.f.Some? && res.rest == op.Pattern() + u && OperatorEnds(op, u)
    requires ReduceSingle(op.Level(), op, res).f.Some?
    ensures Reduce(op.Level(), OpsAt(op.Level()), res) == ReduceSingle(op.Level(), op, res)
  {
    hide Reduce, ReduceSingle, StartsWith, OperatorEnds;
    var i := Position(op);
    forall j | 0 <= j < i
      ensures !StartsWith(res.rest, OpsAt(op.Level())[j].Pattern())
    {
      EarlierMisses(op, u, j);
    }
    ReduceSkips(op.Level(), OpsAt(op.Level()), res, i);
  }

  function Position(op: Op): (i: nat)
    ensures i < |OpsAt(op.Level())| && OpsAt(op.Level())[i] == op
  {
    match op
    case MUL => 0 case DIV => 1 case MOD => 2
    case ADD => 0 case SUB => 1
    case LE => 0 case GE => 1 case LT => 2 case GT => 3
    case EQ => 0 case NE => 1
    case AND => 0
    case OR => 0
  }

  lemma EarlierMisses(op: Op, u: string, j: nat)
    requires j < Position(op) && OperatorEnds(op, u)
    ensures !StartsWith(op.Pattern() + u, OpsAt(op.Level())[j].Pattern())
  {
    var t, pattern := op.Pattern() + u, OpsAt(op.Level())[j].Pattern();
    assert t[0] == op.Pattern()[0];
    assert u != "" ==> t[|op.Pattern()|] == u[0] && (u[0] == '=' ==> StartsWith(u, "="));
    assert |pattern| <= |t| ==> t[..|pattern|][0] == t[0] && t[..|pattern|][|pattern| - 1] == t[|pattern| - 1];
  }

  lemma LevelsShareNoSymbol(op: Op, tighter: Op)
    requires tighter.Level() > op.Level()
    ensures tighter.Pattern()[0] != op.Pattern()[0]
  {
  }

  lemma {:induction false} ReduceSkips(level: nat, ops: seq<Op>, res: ParserResult, i: nat)
    requires 1 <= level <= 6 && res.f.Some? && i < |ops|
    requires forall j :: 0 <= j < i ==> !StartsWith(res.rest, ops[j].Pattern())
    requires ReduceSingle(level, ops[i], res).f.Some?
    ensures Reduce(level, ops, res) == ReduceSingle(level, ops[i], res)
  {
    hide ReduceSingle, StartsWith;
    if i > 0 {
      SingleMisses(level, ops[0], res);
      ReduceSkips(level, ops[1..], res, i - 1);
    }
  }

  lemma {:induction false} CountDigitsConcat(ds: string, rest: string)
    requires AllDigits(ds) && !StartsWithDigit(rest)
    ensures CountDigits(ds + rest) == |ds|
  {
    if ds == "" {
      assert ds + rest == rest;
    } else {
      assert (ds + rest)[1..] == ds[1..] + rest;
      CountDigitsConcat(ds[1..], rest);
    }
  }

  // ---- the edges of a form

  // A form and the rest of the text start with a token; only the end of the text is empty.
  ghost predicate Edged(w: Written, rest: string) {
    var s := Spell(w, rest);
    && StartsTight(s) && EndsTight(s) && (s == "" ==> w.Missing?)
    && (Tightness(w) >= 8 ==> !StartsWith(s, "!"))
  }

  lemma {:induction false} Edges(w: Written, rest: string)
    requires Reads(w, rest) && EndsTight(rest)
    ensures Edged(w, rest)
  {
    hide EndsTight, Edged, Stops, Spell, StartsWith, OperatorEnds, NoOperand, Tightness, Blank, TrimFront, Fails;
    match w
    case Name => EdgesOfToken(w, rest);
    case Number(_, _) => EdgesOfToken(w, rest);
    case Nothing => EdgesOfToken(w, rest);
    case Missing => EdgesOfToken(w, rest);
    case Paren(s1, e, s2) =>
      TightClose(s2, ")", rest);
      Edges(e, s2 + (")" + rest));
      EdgesOfParen(s1, e, s2, rest);
    case Not(s1, e) =>
      Edges(e, rest);
      EdgesOfNot(s1, e, rest);
    case Infix(op, l, s1, s2, r) =>
      Edges(r, rest);
      TightPattern(op);
      SolidGap(s2, r);
      TightToken(s1, op.Pattern(), s2, r, rest);
      Edges(l, s1 + (op.Pattern() + (s2 + Spell(r, rest))));
      EdgesOfInfix(op, l, s1, s2, r, rest);
    case Ternary(c, s1, s2, a, s3, s4, b) =>
      Edges(b, rest);
      TightMark(":");
      TightMark("?");
      TightToken(s3, ":", s4, b, rest);
      var colon := s3 + (":" + (s4 + Spell(b, rest)));
      Edges(a, colon);
      ArmGap(s2, a, s3, s4, b, rest);
      TightToken(s1, "?", s2, a, colon);
      Edges(c, s1 + ("?" + (s2 + Spell(a, colon))));
      EdgesOfTernary(c, s1, s2, a, s3, s4, b, rest);
    case Unclosed(s1, e) =>
      Edges(e, rest);
      EdgesOfUnclosed(s1, e, rest);
    case NoColon(c, s1, s2, a) =>
      Edges(a, rest);
      TightMark("?");
      TightToken(s1, "?", s2, a, rest);
      Edges(c, s1 + ("?" + (s2 + Spell(a, rest))));
      EdgesOfNoColon(c, s1, s2, a, rest);
  }

  lemma TightMark(mark: string)
    requires mark == ":" || mark == "?"
    ensures mark != "" && EndsTight(mark)
  {
  }

  lemma TightPattern(op: Op)
    ensures op.Pattern() != "" && EndsTight(op.Pattern()) && !IsSpace(op.Pattern()[0])
  {
  }

  // The first arm of a ternary is not at the end of the text.
  lemma ArmGap(s2: string, a: Written, s3: string, s4: string, b: Written, rest: string)
    requires Blank(s2) && Reads(a, s3 + (":" + (s4 + Spell(b, rest))))
    ensures Gap(s2, a)
  {
    hide Blank;
    var colon := s3 + (":" + (s4 + Spell(b, rest)));
    assert |colon| >= |s3| + 1;
  }

  lemma SolidGap(s: string, w: Written)
    requires Blank(s) && !Fails(w)
    ensures Gap(s, w)
  {
  }

  lemma EdgesOfToken(w: Written, rest: string)
    requires Reads(w, rest) && EndsTight(rest) && (w.Name? || w.Number? || w.Nothing? || w.Missing?)
    ensures Edged(w, rest)
  {
    match w
    case Name => TightAfter("n", rest);
    case Number(sign, ds) => EdgesOfNumber(sign, ds, rest);
    case Nothing =>
    case Missing =>
  }

  lemma EdgesOfNumber(sign: string, ds: string, rest: string)
    requires Reads(Number(sign, ds), rest) && EndsTight(rest)
    ensures Edged(Number(sign, ds), rest)
  {
    hide IsSpace, IsDigit;
    var s := sign + (ds + rest);
    assert s[0] == if sign == "" then ds[0] else sign[0];
    NoSpaceInNumber(s[0]);
    DigitsEndTight(ds);
    TightAfter(ds, rest);
    TightAfter(sign, ds + rest);
  }

  lemma DigitsEndTight(ds: string)
    requires ds != "" && AllDigits(ds)
    ensures EndsTight(ds) && IsDigit(ds[0])
  {
  }

  lemma NoSpaceInNumber(c: char)
    ensures IsDigit(c) || c == '+' || c == '-' ==> !IsSpace(c) && c != '!'
  {
  }

  lemma EdgesOfParen(s1: string, e: Written, s2: string, rest: string)
    requires Edged(e, s2 + (")" + rest)) && !Fails(e)
    ensures Edged(Paren(s1, e, s2), rest)
  {
    TightAfter(s1, Spell(e, s2 + (")" + rest)));
    TightAfter("(", s1 + Spell(e, s2 + (")" + rest)));
  }

  lemma EdgesOfNot(s1: string, e: Written, rest: string)
    requires Edged(e, rest) && Gap(s1, e)
    ensures Edged(Not(s1, e), rest)
  {
    TightGap(s1, e, rest);
    TightAfter("!", s1 + Spell(e, rest));
  }

  lemma EdgesOfUnclosed(s1: string, e: Written, rest: string)
    requires Edged(e, rest) && Gap(s1, e)
    ensures Edged(Unclosed(s1, e), rest)
  {
    TightGap(s1, e, rest);
    TightAfter("(", s1 + Spell(e, rest));
  }

  lemma EdgesOfInfix(op: Op, l: Written, s1: string, s2: string, r: Written, rest: string)
    requires Edged(l, s1 + (op.Pattern() + (s2 + Spell(r, rest)))) && !Fails(l)
    ensures Edged(Infix(op, l, s1, s2, r), rest)
  {
  }

  lemma EdgesOfTernary(c: Written, s1: string, s2: string, a: Written, s3: string, s4: string, b: Written, rest: string)
    requires Edged(c, s1 + ("?" + (s2 + Spell(a, s3 + (":" + (s4 + Spell(b, rest))))))) && !Fails(c)
    ensures Edged(Ternary(c, s1, s2, a, s3, s4, b), rest)
  {
  }

  lemma EdgesOfNoColon(c: Written, s1: string, s2: string, a: Written, rest: string)
    requires Edged(c, s1 + ("?" + (s2 + Spell(a, rest)))) && !Fails(c)
    ensures Edged(NoColon(c, s1, s2, a), rest)
  {
  }

  lemma TightClose(s2: string, mark: string, rest: string)
    requires EndsTight(rest) && (mark == ")" || mark == ":")
    ensures EndsTight(s2 + (mark + rest))
  {
    TightAfter(mark, rest);
    TightAfter(s2, mark + rest);
  }

  lemma TightAfter(a: string, b: string)
    requires EndsTight(b) && (b == "" ==> EndsTight(a))
    ensures EndsTight(a + b) && (a != "" ==> (a + b)[0] == a[0])
  {
    if b == "" {
      assert a + b == a;
    }
  }

  // A gap and the form after it.
  lemma TightGap(s: string, w: Written, rest: string)
    requires Gap(s, w) && Edged(w, rest)
    ensures EndsTight(s + Spell(w, rest))
  {
    TightAfter(s, Spell(w, rest));
  }

  // Blanks, a token, a gap and the form after it.
  lemma TightToken(s1: string, token: string, s2: string, w: Written, rest: string)
    requires token != "" && EndsTight(token) && Gap(s2, w) && Edged(w, rest)
    ensures EndsTight(s2 + Spell(w, rest)) && EndsTight(token + (s2 + Spell(w, rest)))
    ensures EndsTight(s1 + (token + (s2 + Spell(w, rest))))
  {
    TightGap(s2, w, rest);
    TightAfter(token, s2 + Spell(w, rest));
    TightAfter(s1, token + (s2 + Spell(w, rest)));
  }

  // ---- the grammar, level by level

  // Parsing at this level takes w and stops right after it; it gives a function for the value of w,
  // or none exactly if w fails.
  ghost predicate Parsed(level: nat, w: Written, rest: string, f: Option<Function>)
    requires level <= 8
  {
    && ParseAt(level, Spell(w, rest)) == ParserResult(f, TrimFront(rest))
    && (f.None? <==> Fails(w))
    && (f.Some? ==> Computes(f.value, w))
  }

  // A form at least as tight as the level, where nothing goes on with an operator of the level.
  ghost predicate Readable(level: nat, w: Written, rest: string) {
    Reads(w, rest) && Tightness(w) >= level && EndsTight(rest) && Stops(level, TrimFront(rest))
  }

  lemma {:induction false} ParsesTo(level: nat, w: Written, rest: string) returns (f: Option<Function>)
    requires level <= 8 && Readable(level, w, rest)
    ensures Parsed(level, w, rest, f)
    decreases w, 10 - level, 1
  {
    hide Reads, Spell, TrimFront, Stops, Computes, Parsed, Value;
    if level == 0 {
      f := TernaryParses(w, rest);
    } else if level <= 6 {
      if Fails(w) {
        f := FailureParses(level, w, rest);
      } else {
        StopsTighter(level, TrimFront(rest));
        var g := LoopsTo(level, w, rest);
        f := Some(g);
        LoopEnds(level, w, rest, g);
      }
    } else if level == 7 {
      f := NegationParses(w, rest);
    } else {
      f := ParenthesizedParses(w, rest);
    }
  }

  lemma LoopEnds(level: nat, w: Written, rest: string, g: Function)
    requires 1 <= level <= 6 && Stops(level, TrimFront(rest)) && !Fails(w) && Computes(g, w)
    requires ParseLtr(level, Spell(w, rest)) == Reductions(level, ParserResult(Some(g), TrimFront(rest)))
    ensures Parsed(level, w, rest, Some(g))
  {
    hide Reads, Spell, TrimFront, Stops, Computes, Reductions, ParseLtr;
    NothingToReduce(level, ParserResult(Some(g), TrimFront(rest)));
  }

  lemma NothingToReduce(level: nat, res: ParserResult)
    requires 1 <= level <= 6 && res.f.Some? && Stops(level, res.rest)
    ensures Reductions(level, res) == res
  {
    if res.rest != "" {
      ReduceMisses(level, OpsAt(level), res);
    }
  }

  lemma StopsTighter(level: nat, t: string)
    requires Stops(level, t)
    ensures Stops(level + 1, t)
  {
  }

  // A failure passes through the levels.
  lemma {:induction false} FailureParses(level: nat, w: Written, rest: string) returns (f: Option<Function>)
    requires 1 <= level <= 6 && Readable(level, w, rest) && Fails(w)
    ensures Parsed(level, w, rest, f)
    decreases w, 10 - level, 0
  {
    hide Reads, Spell, TrimFront, Stops, Computes, ParseTighter, ParseAt;
    StopsTighter(level, TrimFront(rest));
    f := ParsesTo(level + 1, w, rest);
    TighterIsNext(level, Spell(w, rest));
    LtrIsAt(level, Spell(w, rest));
  }

  lemma LtrIsAt(level: nat, s: string)
    requires 1 <= level <= 6
    ensures ParseAt(level, s) == ParseLtr(level, s)
  {
  }

  // A left-associative level has reached its loop with the form's function in hand.
  lemma {:induction false} LoopsTo(level: nat, w: Written, rest: string) returns (f: Function)
    requires 1 <= level <= 6 && Reads(w, rest) && Tightness(w) >= level && EndsTight(rest) && !Fails(w)
    requires Stops(level + 1, TrimFront(rest))
    ensures ParseLtr(level, Spell(w, rest)) == Reductions(level, ParserResult(Some(f), TrimFront(rest)))
    ensures Computes(f, w)
    decreases w, 10 - level, 0
  {
    hide TrimFront, Trim, Stops, StartsWith, Computes, Reductions, ParseTighter, ParseLtr, ParseAt, Value, EndsTight,
      OperatorEnds, Blank;
    if Tightness(w) > level {
      var g := ParsesTo(level + 1, w, rest);
      f := g.value;
      LoopStarts(level, Spell(w, rest), f, rest);
    } else {
      var Infix(op, l, before, after, r) := w;
      OperatorTail(op, before, after, r, rest);
      var g := LoopsTo(level, l, before + (op.Pattern() + (after + Spell(r, rest))));
      var h := ParsesTo(level + 1, r, rest);
      f := WrapOp(op, g, h.value);
      ReduceWritten(op, g, h.value, after, r, rest);
      InfixComputes(op, l, before, after, r, g, h.value);
    }
  }

  lemma LoopStarts(level: nat, s: string, f: Function, rest: string)
    requires 1 <= level <= 6 && EndsTight(rest)
    requires ParseAt(level + 1, s) == ParserResult(Some(f), TrimFront(rest))
    ensures ParseLtr(level, s) == Reductions(level, ParserResult(Some(f), TrimFront(rest)))
  {
    hide TrimFront, Trim, Reductions;
    TrimFrontIsSuffix(rest);
    TrimTight(TrimFront(rest));
    TighterIsNext(level, s);
  }

  lemma TighterIsNext(level: nat, s: string)
    requires 1 <= level <= 6
    ensures ParseTighter(level, s) == ParseAt(level + 1, s)
  {
  }

  // An operator after its left operand, followed by its right one.
  lemma OperatorTail(op: Op, before: string, after: string, r: Written, rest: string)
    requires Blank(before) && Blank(after) && Reads(r, rest) && !Fails(r) && EndsTight(rest)
    ensures var t := op.Pattern() + (after + Spell(r, rest));
      && EndsTight(before + t) && TrimFront(before + t) == t && Stops(op.Level() + 1, t)
      && Trim(after + Spell(r, rest)) == Spell(r, rest) && Edged(r, rest)
  {
    hide Spell, Trim, TrimFront, IsSpace, Reads, EndsTight, Blank, Edged;
    Edges(r, rest);
    TightPattern(op);
    SolidGap(after, r);
    TightToken(before, op.Pattern(), after, r, rest);
    TrimGap(after, r, rest);
    TrimToken(before, op.Pattern(), after + Spell(r, rest));
    StopsAtOperator(op, after + Spell(r, rest));
  }

  lemma StopsAtOperator(op: Op, u: string)
    ensures Stops(op.Level() + 1, op.Pattern() + u)
  {
    var t := op.Pattern() + u;
    assert t[0] == op.Pattern()[0];
    forall o: Op | o.Level() >= op.Level() + 1
      ensures !StartsWith(t, o.Pattern())
    {
      LevelsShareNoSymbol(op, o);
    }
  }

  // Blanks before a form are trimmed off.
  lemma TrimGap(gap: string, w: Written, rest: string)
    requires Blank(gap) && Edged(w, rest)
    ensures Trim(gap + Spell(w, rest)) == Spell(w, rest)
  {
    hide Spell, IsSpace, Trim;
    TrimAfter(gap, Spell(w, rest));
  }

  lemma TrimToken(before: string, token: string, u: string)
    requires Blank(before) && token != "" && !IsSpace(token[0])
    ensures TrimFront(before + (token + u)) == token + u
  {
    hide TrimFront;
    assert (token + u)[0] == token[0];
    TrimFrontBlank(before, token + u);
  }

  lemma InfixComputes(op: Op, l: Written, before: string, after: string, r: Written, g: Function, h: Function)
    requires Computes(g, l) && Computes(h, r)
    ensures Computes(WrapOp(op, g, h), Infix(op, l, before, after, r))
  {
    hide Apply;
    var w := Infix(op, l, before, after, r);
    forall n: u64
      ensures WrapOp(op, g, h)(n) == Value(w, n)
    {
      assert g(n) == Value(l, n) && h(n) == Value(r, n);
    }
  }

  // One round of the loop consumes the operator and its right operand.
  lemma ReduceWritten(op: Op, g: Function, h: Function, after: string, r: Written, rest: string)
    requires Trim(after + Spell(r, rest)) == Spell(r, rest) && OperatorEnds(op, after + Spell(r, rest))
      && EndsTight(rest)
    requires ParseAt(op.Level() + 1, Spell(r, rest)) == ParserResult(Some(h), TrimFront(rest))
    ensures var right := op.Pattern() + (after + Spell(r, rest));
      Reductions(op.Level(), ParserResult(Some(g), right))
        == Reductions(op.Level(), ParserResult(Some(WrapOp(op, g, h)), TrimFront(rest)))
  {
    hide ParseTighter, ParseAt, Reduce, Reductions, Spell, TrimFront, Trim, EndsTight, WrapOp, OperatorEnds;
    TighterIsNext(op.Level(), Spell(r, rest));
    var u := after + Spell(r, rest);
    var right := op.Pattern() + u;
    var res, next := ParserResult(Some(g), right), ParserResult(Some(WrapOp(op, g, h)), TrimFront(rest));
    ReduceOne(op, g, h, right, u, Spell(r, rest), rest);
    ReduceHits(op, res, u);
    OneRound(op.Level(), res, next, rest);
  }

  lemma ReduceOne(op: Op, g: Function, h: Function, right: string, u: string, operand: string, rest: string)
    requires right == op.Pattern() + u && Trim(u) == operand && EndsTight(rest)
    requires ParseTighter(op.Level(), operand) == ParserResult(Some(h), TrimFront(rest))
    ensures ReduceSingle(op.Level(), op, ParserResult(Some(g), right))
      == ParserResult(Some(WrapOp(op, g, h)), TrimFront(rest))
  {
    hide ParseTighter, TrimFront, Trim, WrapOp;
    TrimFrontIsSuffix(rest);
    TrimTight(TrimFront(rest));
    assert right[|op.Pattern()|..] == u;
  }

  lemma OneRound(level: nat, res: ParserResult, next: ParserResult, rest: string)
    requires 1 <= level <= 6 && res.f.Some? && res.rest != "" && next.f.Some?
    requires next.rest == TrimFront(rest) && EndsTight(rest)
    requires Reduce(level, OpsAt(level), res) == next
    ensures Reductions(level, res) == Reductions(level, next)
  {
    hide Reduce, TrimFront, Trim, OpsAt;
    TrimFrontIsSuffix(rest);
    TrimTight(TrimFront(rest));
    assert Trim(next.rest) == next.rest;
  }

  lemma {:induction false} NegationParses(w: Written, rest: string) returns (f: Option<Function>)
    requires Readable(7, w, rest)
    ensures Parsed(7, w, rest, f)
    decreases w, 3, 0
  {
    hide Reads, Spell, TrimFront, Stops, Computes, Parsed, Value, EndsTight;
    if w.Not? {
      var Not(gap, e) := w;
      NotReads(gap, e, rest);
      Edges(e, rest);
      TrimGap(gap, e, rest);
      var g := ParsesTo(7, e, rest);
      f := if g.Some? then Some(WrapNot(g.value)) else None;
      NotParsed(gap, e, rest, g);
    } else {
      StopsTighter(7, TrimFront(rest));
      Edges(w, rest);
      f := ParsesTo(8, w, rest);
      NoNegation(w, rest, f);
    }
  }

  lemma NotReads(gap: string, e: Written, rest: string)
    requires Readable(7, Not(gap, e), rest)
    ensures Readable(7, e, rest) && Gap(gap, e)
  {
    hide Stops, EndsTight, TrimFront;
  }

  lemma NotParsed(gap: string, e: Written, rest: string, g: Option<Function>)
    requires Parsed(7, e, rest, g) && Trim(gap + Spell(e, rest)) == Spell(e, rest)
    ensures Parsed(7, Not(gap, e), rest, if g.Some? then Some(WrapNot(g.value)) else None)
  {
    hide Trim, TrimFront;
    var s := Spell(Not(gap, e), rest);
    assert s[0] == '!' && s[1..] == gap + Spell(e, rest);
    if g.Some? {
      forall n: u64
        ensures WrapNot(g.value)(n) == Value(Not(gap, e), n)
      {
        assert g.value(n) == Value(e, n);
      }
    }
  }

  lemma NoNegation(w: Written, rest: string, f: Option<Function>)
    requires Parsed(8, w, rest, f) && Edged(w, rest) && Tightness(w) >= 8
    ensures Parsed(7, w, rest, f)
  {
    hide Spell, TrimFront, Computes, ParseParenthesized;
    var s := Spell(w, rest);
    assert s != "" ==> s[..1] == [s[0]];
    assert ParseParenthesized("") == ParserResult(None, "") by {
      EmptyParses();
    }
  }

  lemma EmptyParses()
    ensures ParseParenthesized("") == ParserResult(None, "")
  {
  }

  lemma {:induction false} ParenthesizedParses(w: Written, rest: string) returns (f: Option<Function>)
    requires Readable(8, w, rest)
    ensures Parsed(8, w, rest, f)
    decreases w, 2, 0
  {
    hide Spell, TrimFront, Computes, Parsed, Value, EndsTight, StartsWith, Blank, Trim;
    match w
    case Paren(before, e, after) =>
      var close := ")" + rest;
      CloseTail(')', after, rest);
      TightClose(after, ")", rest);
      Edges(e, after + close);
      TrimGap(before, e, after + close);
      var g := ParsesTo(0, e, after + close);
      f := g;
      ParenParsed(before, e, after, rest, g);
    case Unclosed(before, e) =>
      Edges(e, rest);
      TrimGap(before, e, rest);
      var g := ParsesTo(0, e, rest);
      f := None;
      UnclosedParsed(before, e, rest, g);
    case _ =>
      f := AtomicParses(w, rest);
  }

  lemma ParenParsed(before: string, e: Written, after: string, rest: string, g: Option<Function>)
    requires var close := ")" + rest;
      && Parsed(0, e, after + close, g) && TrimFront(after + close) == close
      && Trim(before + Spell(e, after + close)) == Spell(e, after + close)
    requires !Fails(e) && EndsTight(rest)
    ensures Parsed(8, Paren(before, e, after), rest, g)
  {
    hide ParseTernary, TrimFront, EndsTight;
    var close := ")" + rest;
    var s := Spell(Paren(before, e, after), rest);
    assert s[0] == '(' && s[1..] == before + Spell(e, after + close);
    assert close[1..] == rest;
    assert ParseExpr(s[1..]) == ParserResult(g, close);
    TrimFrontIsSuffix(rest);
    assert forall n: u64 :: Value(Paren(before, e, after), n) == Value(e, n);
  }

  lemma UnclosedParsed(before: string, e: Written, rest: string, g: Option<Function>)
    requires Parsed(0, e, rest, g) && Trim(before + Spell(e, rest)) == Spell(e, rest)
    requires Fails(e) || !StartsWith(TrimFront(rest), ")")
    ensures Parsed(8, Unclosed(before, e), rest, None)
  {
    hide ParseTernary, TrimFront;
    var s := Spell(Unclosed(before, e), rest);
    assert s[0] == '(' && s[1..] == before + Spell(e, rest);
    assert ParseExpr(s[1..]) == ParserResult(g, TrimFront(rest));
    var t := TrimFront(rest);
    assert t != "" ==> t[..1] == [t[0]];
  }

  lemma AtomicParses(w: Written, rest: string) returns (f: Option<Function>)
    requires Reads(w, rest) && EndsTight(rest) && (w.Name? || w.Number? || w.Nothing? || w.Missing?)
    ensures Parsed(8, w, rest, f)
  {
    match w
    case Name =>
      TrimFrontIsSuffix(rest);
      assert ("n" + rest)[1..] == rest;
      f := Some(Identity());
    case Number(sign, ds) =>
      f := NumberParses(sign, ds, rest);
    case Nothing =>
      NothingParses(rest);
      f := Some(Constant(0));
    case Missing =>
      f := None;
  }

  lemma NothingParses(rest: string)
    requires NoOperand(rest) && EndsTight(rest)
    ensures ParseParenthesized(rest) == ParserResult(Some(Constant(0)), TrimFront(rest))
  {
    assert TrimFront(rest) == rest;
    assert Wcstoul(rest) == (0, 0);
    assert rest[0..] == rest;
  }

  lemma NumberParses(sign: string, ds: string, rest: string) returns (f: Option<Function>)
    requires Reads(Number(sign, ds), rest) && EndsTight(rest)
    ensures Parsed(8, Number(sign, ds), rest, f)
  {
    hide IsSpace, DigitsValue, Wcstoul, TrimFront, TrimBack, Trim, NumberValue;
    var s := sign + (ds + rest);
    assert s[0] == if sign == "" then ds[0] else sign[0];
    DigitsEndTight(ds);
    TrimFrontIsSuffix(rest);
    NumberRead(sign, ds, rest);
    assert s[|sign + ds|..] == rest;
    f := Some(Constant(NumberValue(sign, ds)));
  }

  lemma NumberRead(sign: string, ds: string, rest: string)
    requires Reads(Number(sign, ds), rest)
    ensures Wcstoul(sign + (ds + rest)) == (NumberValue(sign, ds), |sign + ds|)
  {
    hide DigitsValue, CountDigits;
    var s := sign + (ds + rest);
    assert s[0] == if sign == "" then ds[0] else sign[0];
    assert TrimFront(s) == s;
    CountDigitsConcat(ds, rest);
    assert (ds + rest)[..|ds|] == ds;
    if sign == "" {
      assert s == ds + rest;
    } else {
      assert s[1..] == ds + rest;
    }
  }

  // A closing mark after an operand.
  lemma CloseTail(mark: char, after: string, rest: string)
    requires Blank(after) && (mark == ')' || mark == ':')
    ensures var t := [mark] + rest; TrimFront(after + t) == t && Stops(0, t)
  {
    TrimToken(after, [mark], rest);
    var t := [mark] + rest;
    forall op: Op
      ensures !StartsWith(t, op.Pattern())
    {
      assert op.Pattern()[0] != mark && t[0] == mark;
    }
    assert t[..1] == [mark];
  }

  lemma {:induction false} TernaryParses(w: Written, rest: string) returns (f: Option<Function>)
    requires Readable(0, w, rest)
    ensures Parsed(0, w, rest, f)
    decreases w, 10, 0
  {
    hide TrimFront, Stops, Computes, Parsed, Value, EndsTight, StartsWith, Spell, Blank, Trim;
    match w
    case Ternary(c, s1, s2, a, s3, s4, b) =>
      var colon := s3 + (":" + (s4 + Spell(b, rest)));
      var question := s1 + ("?" + (s2 + Spell(a, colon)));
      ArmGap(s2, a, s3, s4, b, rest);
      MarkTail(s3, ":", s4, b, rest);
      MarkTail(s1, "?", s2, a, colon);
      var fb := ParsesTo(0, b, rest);
      var fa := ParsesTo(0, a, colon);
      var fc := ParsesTo(1, c, question);
      f := TernaryParsed(c, s1, s2, a, s3, s4, b, rest, fc, fa, fb);
    case NoColon(c, s1, s2, a) =>
      var question := s1 + ("?" + (s2 + Spell(a, rest)));
      MarkTail(s1, "?", s2, a, rest);
      var fa := ParsesTo(0, a, rest);
      var fc := ParsesTo(1, c, question);
      f := None;
      NoColonParsed(c, s1, s2, a, rest, fc, fa);
    case _ =>
      StopsTighter(0, TrimFront(rest));
      f := ParsesTo(1, w, rest);
      NoCondition(w, rest, f);
  }

  // A mark "?" or ":" after an operand, followed by another form.
  lemma MarkTail(before: string, mark: string, gap: string, w: Written, rest: string)
    requires Blank(before) && Gap(gap, w) && (mark == "?" || mark == ":")
    requires Reads(w, rest) && EndsTight(rest)
    ensures var t := mark + (gap + Spell(w, rest));
      && EndsTight(before + t) && TrimFront(before + t) == t && Stops(if mark == ":" then 0 else 1, t)
      && Trim(gap + Spell(w, rest)) == Spell(w, rest)
  {
    hide Spell, Trim, TrimFront, Reads, EndsTight, Blank, Edged, Stops;
    Edges(w, rest);
    TightMark(mark);
    MarkIsTight(mark);
    TightToken(before, mark, gap, w, rest);
    TrimGap(gap, w, rest);
    TrimToken(before, mark, gap + Spell(w, rest));
    MarkStops(mark, gap + Spell(w, rest));
  }

  lemma MarkIsTight(mark: string)
    requires mark == "?" || mark == ":"
    ensures !IsSpace(mark[0])
  {
  }

  lemma MarkStops(mark: string, u: string)
    requires mark == "?" || mark == ":"
    ensures Stops(if mark == ":" then 0 else 1, mark + u)
  {
    var t := mark + u;
    assert t[0] == mark[0] && t[..1] == mark;
    forall op: Op
      ensures !StartsWith(t, op.Pattern())
    {
      assert op.Pattern()[0] != mark[0];
    }
  }

  lemma NoCondition(w: Written, rest: string, f: Option<Function>)
    requires Parsed(1, w, rest, f) && Stops(0, TrimFront(rest))
    ensures Parsed(0, w, rest, f)
  {
    hide ParseLtr, Spell, TrimFront, Computes;
    var t := TrimFront(rest);
    assert t != "" ==> t[..1] == [t[0]];
  }

  lemma TernaryParsed(c: Written, s1: string, s2: string, a: Written, s3: string, s4: string, b: Written, rest: string,
                      fc: Option<Function>, fa: Option<Function>, fb: Option<Function>)
      returns (f: Option<Function>)
    requires var colon := ":" + (s4 + Spell(b, rest));
      var question := "?" + (s2 + Spell(a, s3 + colon));
      && Parsed(1, c, s1 + question, fc) && !Fails(c) && Parsed(0, a, s3 + colon, fa) && Parsed(0, b, rest, fb)
      && TrimFront(s1 + question) == question && TrimFront(s3 + colon) == colon
      && Trim(s2 + Spell(a, s3 + colon)) == Spell(a, s3 + colon) && Trim(s4 + Spell(b, rest)) == Spell(b, rest)
    ensures Parsed(0, Ternary(c, s1, s2, a, s3, s4, b), rest, f)
  {
    hide TrimFront, Trim, ParseLtr, ParseTernary, Computes;
    var colon := ":" + (s4 + Spell(b, rest));
    var question := "?" + (s2 + Spell(a, s3 + colon));
    f := Some(BindTernary(fc, fa, fb));
    TernarySteps(Spell(c, s1 + question), question, s2 + Spell(a, s3 + colon), Spell(a, s3 + colon), colon,
                 s4 + Spell(b, rest), Spell(b, rest), TrimFront(rest), fc.value, fa, fb);
    TernaryComputes(c, s1, s2, a, s3, s4, b, fc, fa, fb);
  }

  lemma TernarySteps(s: string, question: string, u: string, yes: string, colon: string, v: string, no: string,
                     end: string,
                     fc: Function, fa: Option<Function>, fb: Option<Function>)
    requires question == "?" + u && Trim(u) == yes && colon == ":" + v && Trim(v) == no
    requires ParseLtr(1, s) == ParserResult(Some(fc), question)
    requires ParseTernary(yes) == ParserResult(fa, colon)
    requires ParseTernary(no) == ParserResult(fb, end)
    ensures ParseTernary(s) == ParserResult(Some(BindTernary(Some(fc), fa, fb)), end)
  {
    hide ParseLtr, Trim, BindTernary;
    assert question[1..] == u && colon[1..] == v;
  }

  lemma TernaryComputes(c: Written, s1: string, s2: string, a: Written, s3: string, s4: string, b: Written,
                        fc: Option<Function>, fa: Option<Function>, fb: Option<Function>)
    requires fc.Some? && Computes(fc.value, c)
    requires (fa.None? <==> Fails(a)) && (fa.Some? ==> Computes(fa.value, a))
    requires (fb.None? <==> Fails(b)) && (fb.Some? ==> Computes(fb.value, b))
    ensures Computes(BindTernary(fc, fa, fb), Ternary(c, s1, s2, a, s3, s4, b))
  {
    var w := Ternary(c, s1, s2, a, s3, s4, b);
    forall n: u64
      ensures BindTernary(fc, fa, fb)(n) == Value(w, n)
    {
      assert fc.value(n) == Value(c, n);
      ArmValue(a, fa, n);
      ArmValue(b, fb, n);
    }
  }

  lemma ArmValue(a: Written, f: Option<Function>, n: u64)
    requires (f.None? <==> Fails(a)) && (f.Some? ==> Computes(f.value, a))
    ensures Call(f, n) == Value(a, n)
  {
    if f.None? {
      FailsHasNoValue(a, n);
    }
  }

  lemma NoColonParsed(c: Written, s1: string, s2: string, a: Written, rest: string, fc: Option<Function>,
                      fa: Option<Function>)
    requires var question := "?" + (s2 + Spell(a, rest));
      && Parsed(1, c, s1 + question, fc) && !Fails(c) && Parsed(0, a, rest, fa)
      && TrimFront(s1 + question) == question && Trim(s2 + Spell(a, rest)) == Spell(a, rest)
    requires !StartsWith(TrimFront(rest), ":")
    ensures Parsed(0, NoColon(c, s1, s2, a), rest, None)
  {
    hide TrimFront, Trim, ParseLtr, Computes;
    var question := "?" + (s2 + Spell(a, rest));
    assert question[1..] == s2 + Spell(a, rest);
    var t := TrimFront(rest);
    assert t != "" ==> t[..1] == [t[0]];
  }

  // ---- expressions as the standard has them

  datatype Expr =
    | Var
    | Lit(value: u64)
    | Neg(e: Expr)
    | Binary(op: Op, l: Expr, r: Expr)
    | Choose(cond: Expr, yes: Expr, no: Expr)

  function Eval(e: Expr, n: u64): u64 {
    match e
    case Var => n
    case Lit(v) => v
    case Neg(a) => Truth(Eval(a, n) == 0)
    case Binary(op, l, r) => Apply(op, Eval(l, n), Eval(r, n))
    case Choose(c, a, b) => if Eval(c, n) != 0 then Eval(a, n) else Eval(b, n)
  }

  // Forms with nothing left out, whatever the text around them.
  predicate WellFormed(w: Written) {
    match w
    case Name => true
    case Number(sign, ds) => sign == "" && ds != "" && AllDigits(ds)
    case Paren(s1, e, s2) => Blank(s1) && Blank(s2) && WellFormed(e)
    case Not(s1, e) => Blank(s1) && WellFormed(e) && Tightness(e) >= 7
    case Infix(op, l, s1, s2, r) =>
      Blank(s1) && Blank(s2) && WellFormed(l) && WellFormed(r) && Tightness(l) >= op.Level()
        && Tightness(r) > op.Level()
    case Ternary(c, s1, s2, a, s3, s4, b) =>
      Blank(s1) && Blank(s2) && Blank(s3) && Blank(s4) && WellFormed(c) && WellFormed(a) && WellFormed(b)
        && Tightness(c) >= 1
    case _ => false
  }

  // The expression such a form stands for.
  function Meaning(w: Written): Expr
    requires WellFormed(w)
  {
    match w
    case Name => Var
    case Number(_, ds) => Lit(Saturate(DigitsValue(ds)))
    case Paren(_, e, _) => Meaning(e)
    case Not(_, e) => Neg(Meaning(e))
    case Infix(op, l, _, _, r) => Binary(op, Meaning(l), Meaning(r))
    case Ternary(c, _, _, a, _, _, b) => Choose(Meaning(c), Meaning(a), Meaning(b))
  }

  lemma {:induction false} WellFormedValue(w: Written, n: u64)
    requires WellFormed(w)
    ensures !Fails(w) && Value(w, n) == Some(Eval(Meaning(w), n))
  {
    hide Apply, Truth, Saturate;
    match w
    case Name =>
    case Number(_, _) =>
    case Paren(_, e, _) => WellFormedValue(e, n);
    case Not(_, e) => WellFormedValue(e, n);
    case Infix(op, l, _, _, r) =>
      WellFormedValue(l, n);
      WellFormedValue(r, n);
    case Ternary(c, _, _, a, _, _, b) =>
      WellFormedValue(c, n);
      WellFormedValue(a, n);
      WellFormedValue(b, n);
  }

  lemma {:induction false} WellFormedSolid(w: Written)
    requires WellFormed(w)
    ensures !Fails(w)
  {
    if w.Not? {
      WellFormedSolid(w.operand);
    }
  }

  // They start with a token, and with no operator other than "!".
  lemma {:induction false} WellFormedStart(w: Written, rest: string)
    requires WellFormed(w)
    ensures var s := Spell(w, rest); s != "" && !IsSpace(s[0]) && s[0] != '='
  {
    match w
    case Name =>
    case Number(_, ds) => DigitStart(ds, rest);
    case Paren(_, _, _) =>
    case Not(_, _) =>
    case Infix(op, l, s1, s2, r) => WellFormedStart(l, s1 + (op.Pattern() + (s2 + Spell(r, rest))));
    case Ternary(c, s1, s2, a, s3, s4, b) =>
      WellFormedStart(c, s1 + ("?" + (s2 + Spell(a, s3 + (":" + (s4 + Spell(b, rest)))))));
  }

  lemma DigitStart(ds: string, rest: string)
    requires ds != "" && AllDigits(ds)
    ensures var s := "" + (ds + rest); s != "" && !IsSpace(s[0]) && s[0] != '='
  {
    assert ("" + (ds + rest))[0] == ds[0];
  }

  // They can be read wherever no digit follows them.
  lemma {:induction false} WellFormedReads(w: Written, rest: string)
    requires WellFormed(w) && !StartsWithDigit(rest)
    ensures Reads(w, rest)
  {
    hide Spell, Stops, OperatorEnds, StartsWithDigit, Blank, AllDigits, TrimFront, StartsWith;
    match w
    case Name =>
    case Number(_, _) =>
    case Paren(s1, e, s2) =>
      NoDigitAfter(s2, ")", rest);
      WellFormedSolid(e);
      WellFormedReads(e, s2 + (")" + rest));
    case Not(s1, e) =>
      WellFormedSolid(e);
      SolidGap(s1, e);
      WellFormedReads(e, rest);
    case Infix(op, l, s1, s2, r) =>
      WellFormedSolid(l);
      WellFormedSolid(r);
      WellFormedReads(r, rest);
      OperatorNoDigit(op);
      NoDigitAfter(s1, op.Pattern(), s2 + Spell(r, rest));
      WellFormedReads(l, s1 + (op.Pattern() + (s2 + Spell(r, rest))));
      WellFormedStart(r, rest);
      OperatorEndsThere(op, s2, Spell(r, rest));
    case Ternary(c, s1, s2, a, s3, s4, b) =>
      WellFormedSolid(b);
      SolidGap(s4, b);
      WellFormedReads(b, rest);
      NoDigitAfter(s3, ":", s4 + Spell(b, rest));
      WellFormedReads(a, s3 + (":" + (s4 + Spell(b, rest))));
      var yes := s2 + Spell(a, s3 + (":" + (s4 + Spell(b, rest))));
      NoDigitAfter(s1, "?", yes);
      WellFormedSolid(c);
      WellFormedReads(c, s1 + ("?" + yes));
  }

  lemma NoDigitAfter(before: string, token: string, u: string)
    requires Blank(before) && token != "" && !IsDigit(token[0])
    ensures !StartsWithDigit(before + (token + u))
  {
    var t := before + (token + u);
    assert t[0] == if before == "" then token[0] else before[0];
  }

  lemma OperatorNoDigit(op: Op)
    ensures op.Pattern() != "" && !IsDigit(op.Pattern()[0])
  {
  }

  lemma OperatorEndsThere(op: Op, after: string, s: string)
    requires Blank(after) && s != "" && s[0] != '='
    ensures OperatorEnds(op, after + s)
  {
    var u := after + s;
    assert u[0] == if after == "" then s[0] else after[0];
    assert u[..1][0] == u[0];
  }

  // ---- the round trip

  // Whatever reads up to the end of a text, with blanks around it, decides what the text compiles to.
  lemma ReadsParse(w: Written, s: string)
    requires Reads(w, "") && Text(w) == Trim(s)
    ensures Parse(s).Some? <==> !Fails(w)
    ensures Parse(s).Some? ==> Computes(Parse(s).value, w)
  {
    hide Spell, Reads, ParseTernary, Trim, TrimFront, Computes;
    NothingFollows();
    var f := ParsesTo(0, w, "");
  }

  lemma NothingFollows()
    ensures TrimFront("") == "" && EndsTight("") && Stops(0, "")
  {
    assert forall op: Op :: op.Pattern() != "";
  }

  // Any well-formed way of writing an expression, with blanks around it, compiles to a function
  // that has the expression's value everywhere.
  lemma RoundTrip(before: string, w: Written, after: string)
    requires Blank(before) && Blank(after) && WellFormed(w)
    ensures Parse(before + Text(w) + after).Some?
    ensures forall n: u64 :: Parse(before + Text(w) + after).value(n) == Some(Eval(Meaning(w), n))
  {
    hide Spell, Trim, Meaning, Reads, Fails, Value, Parse;
    var s := before + Text(w) + after;
    WellFormedReads(w, "");
    WellFormedSolid(w);
    NothingFollows();
    Edges(w, "");
    TrimAround(before, Text(w), after);
    ReadsParse(w, s);
    forall n: u64
      ensures Parse(s).value(n) == Some(Eval(Meaning(w), n))
    {
      WellFormedValue(w, n);
    }
  }

  lemma TrimAround(before: string, text: string, after: string)
    requires Blank(before) && Blank(after) && StartsTight(text) && EndsTight(text) && text != ""
    ensures Trim(before + text + after) == text
  {
    hide TrimFront, TrimBack;
    assert before + text + after == before + (text + after);
    TrimFrontBlank(before, text + after);
    TrimBackBlank(text, after);
  }

  // The grammar is unambiguous: forms written alike mean the same.
  lemma SameTextSameValue(w1: Written, w2: Written, n: u64)
    requires WellFormed(w1) && WellFormed(w2) && Text(w1) == Text(w2)
    ensures Eval(Meaning(w1), n) == Eval(Meaning(w2), n)
  {
    hide Text, Meaning, Parse, WellFormed;
    RoundTrip("", w1, "");
    RoundTrip("", w2, "");
    var f := Parse("" + Text(w1) + "").value;
    assert f(n) == Some(Eval(Meaning(w1), n));
    assert f(n) == Some(Eval(Meaning(w2), n));
  }

  function Decimal(v: nat): (ds: string)
    ensures ds != "" && AllDigits(ds) && DigitsValue(ds) == v
  {
    var last := [('0' as int + v % 10) as char];
    if v < 10 then last
    else
      var ds := Decimal(v / 10) + last;
      assert ds[..|ds| - 1] == Decimal(v / 10);
      ds
  }

  function Parenthesized(w: Written, tight: nat): Written {
    if Tightness(w) >= tight then w else Paren("", w, "")
  }

  // Every expression can be written, with parentheses only where they are needed.
  function Write(e: Expr): (w: Written)
    ensures WellFormed(w) && Meaning(w) == e
  {
    match e
    case Var => Name
    case Lit(v) => Number("", Decimal(v))
    case Neg(a) => Not("", Parenthesized(Write(a), 7))
    case Binary(op, l, r) =>
      Infix(op, Parenthesized(Write(l), op.Level()), " ", " ", Parenthesized(Write(r), op.Level() + 1))
    case Choose(c, a, b) => Ternary(Parenthesized(Write(c), 1), " ", " ", Write(a), " ", " ", Write(b))
  }

  lemma WriteRoundTrip(e: Expr)
    ensures Parse(Text(Write(e))).Some?
    ensures forall n: u64 :: Parse(Text(Write(e))).value(n) == Some(Eval(e, n))
  {
    hide Text, Parse, Eval, Write;
    RoundTrip("", Write(e), "");
    assert "" + Text(Write(e)) + "" == Text(Write(e));
  }
}
