// The plural forms as C reads them: expressions with their operators as written, the precedence of
// sections 6.5.3 to 6.5.15 of ISO/IEC 9899:2011, and unsigned 64-bit arithmetic. Nothing here is taken
// from the compiler (src/gettext_plural_form.cpp:15-194).

module PluralLaws {
  import opened Numbers
  import opened Options
  import opened PluralOps
  import opened PluralParser
  import opened PluralSyntax

  datatype Form =
    | N
    | Decimals(value: nat)
    | Grouped(inner: Form)
    | Inverse(operand: Form)
    | Joint(l: Form, operator: string, r: Form)
    | Conditional(cond: Form, yes: Form, no: Form)

  // How tightly an operator binds its operands; 0 for anything else.
  function Binding(operator: string): nat {
    if operator in ["*", "/", "%"] then 6
    else if operator in ["+", "-"] then 5
    else if operator in ["<", ">", "<=", ">="] then 4
    else if operator in ["==", "!="] then 3
    else if operator == "&&" then 2
    else if operator == "||" then 1
    else 0
  }

  function FormBinding(e: Form): nat {
    match e
    case N => 8
    case Decimals(_) => 8
    case Grouped(_) => 8
    case Inverse(_) => 7
    case Joint(_, operator, _) => Binding(operator)
    case Conditional(_, _, _) => 0
  }

  // What an operator computes. Dividing by zero is left open by C, and gives 0 here.
  function Computed(operator: string, a: nat, b: nat): int {
    if operator == "*" then a * b % 0x1_0000_0000_0000_0000
    else if operator == "/" then if b == 0 then 0 else a / b
    else if operator == "%" then if b == 0 then 0 else a % b
    else if operator == "+" then (a + b) % 0x1_0000_0000_0000_0000
    else if operator == "-" then if a >= b then a - b else a - b + 0x1_0000_0000_0000_0000
    else if (operator == "<" && a < b) || (operator == ">" && a > b) then 1
    else if (operator == "<=" && a <= b) || (operator == ">=" && a >= b) then 1
    else if (operator == "==" && a == b) || (operator == "!=" && a != b) then 1
    else if (operator == "&&" && a != 0 && b != 0) || (operator == "||" && (a != 0 || b != 0)) then 1
    else 0
  }

  predicate IsForm(e: Form) {
    match e
    case N => true
    case Decimals(v) => v < 0x1_0000_0000_0000_0000
    case Grouped(a) => IsForm(a)
    case Inverse(a) => IsForm(a)
    case Joint(l, operator, r) => Binding(operator) > 0 && IsForm(l) && IsForm(r)
    case Conditional(c, a, b) => IsForm(c) && IsForm(a) && IsForm(b)
  }

  function FormValue(e: Form, n: u64): u64
    requires IsForm(e)
  {
    match e
    case N => n
    case Decimals(v) => v
    case Grouped(a) => FormValue(a, n)
    case Inverse(a) => if FormValue(a, n) == 0 then 1 else 0
    case Joint(l, operator, r) =>
      ComputedFits(operator, FormValue(l, n), FormValue(r, n));
      Computed(operator, FormValue(l, n), FormValue(r, n))
    case Conditional(c, a, b) => if FormValue(c, n) != 0 then FormValue(a, n) else FormValue(b, n)
  }

  lemma ComputedFits(operator: string, a: u64, b: u64)
    requires Binding(operator) > 0
    ensures 0 <= Computed(operator, a, b) < 0x1_0000_0000_0000_0000
  {
    hide Binding, Computed, Apply;
    OpIs(operator, a, b);
  }

  function Digits(v: nat): string {
    if v < 10 then [('0' as int + v) as char] else Digits(v / 10) + [('0' as int + v % 10) as char]
  }

  // Space, tab, line feed, vertical tab, form feed and carriage return.
  predicate IsGap(gap: string) {
    forall c :: c in gap ==> c as int in {32, 9, 10, 11, 12, 13}
  }

  // Operands stand in parentheses exactly where they bind less tightly than their place demands, so
  // the operators of one level group from the left. The gap is put between all tokens.
  function FormText(e: Form, gap: string): string
    decreases e, 0
  {
    match e
    case N => "n"
    case Decimals(v) => Digits(v)
    case Grouped(a) => "(" + gap + FormText(a, gap) + gap + ")"
    case Inverse(a) => "!" + gap + Operand(a, 7, gap)
    case Joint(l, operator, r) =>
      Operand(l, Binding(operator), gap) + gap + operator + gap + Operand(r, Binding(operator) + 1, gap)
    case Conditional(c, a, b) =>
      Operand(c, 1, gap) + gap + "?" + gap + FormText(a, gap) + gap + ":" + gap + FormText(b, gap)
  }

  function Operand(e: Form, tight: nat, gap: string): string
    decreases e, 1
  {
    if FormBinding(e) >= tight then FormText(e, gap) else "(" + gap + FormText(e, gap) + gap + ")"
  }

  // ---- the compiler's own terms

  function OpOf(operator: string): (op: Op)
    requires Binding(operator) > 0
  {
    if operator == "*" then MUL else if operator == "/" then DIV else if operator == "%" then MOD
    else if operator == "+" then ADD else if operator == "-" then SUB
    else if operator == "<" then LT else if operator == ">" then GT
    else if operator == "<=" then LE else if operator == ">=" then GE
    else if operator == "==" then EQ else if operator == "!=" then NE
    else if operator == "&&" then AND else OR
  }

  lemma OpIs(operator: string, a: u64, b: u64)
    requires Binding(operator) > 0
    ensures OpOf(operator).Pattern() == operator && OpOf(operator).Level() == Binding(operator)
    ensures Apply(OpOf(operator), a, b) == Computed(operator, a, b)
  {
  }

  function AsWritten(e: Form, gap: string): Written
    requires IsForm(e)
    decreases e, 0
  {
    match e
    case N => Name
    case Decimals(v) => Number("", Decimal(v))
    case Grouped(a) => Paren(gap, AsWritten(a, gap), gap)
    case Inverse(a) => Not(gap, AsOperand(a, 7, gap))
    case Joint(l, operator, r) =>
      Infix(OpOf(operator), AsOperand(l, Binding(operator), gap), gap, gap, AsOperand(r, Binding(operator) + 1, gap))
    case Conditional(c, a, b) =>
      Ternary(AsOperand(c, 1, gap), gap, gap, AsWritten(a, gap), gap, gap, AsWritten(b, gap))
  }

  function AsOperand(e: Form, tight: nat, gap: string): Written
    requires IsForm(e)
    decreases e, 1
  {
    if FormBinding(e) >= tight then AsWritten(e, gap) else Paren(gap, AsWritten(e, gap), gap)
  }

  lemma {:induction false} DigitsAreDecimal(v: nat)
    ensures Digits(v) == Decimal(v)
  {
    if v >= 10 {
      DigitsAreDecimal(v / 10);
    }
  }

  lemma GapIsBlank(gap: string)
    requires IsGap(gap)
    ensures Blank(gap)
  {
    forall i | 0 <= i < |gap|
      ensures IsSpace(gap[i])
    {
      assert gap[i] in gap;
    }
  }

  lemma TightnessIs(e: Form, gap: string)
    requires IsForm(e)
    ensures Tightness(AsWritten(e, gap)) == FormBinding(e)
  {
    hide Binding, Computed, Apply;
    if e.Joint? {
      OpIs(e.operator, 0, 0);
    }
  }

  lemma {:induction false} WellWritten(e: Form, gap: string)
    requires IsForm(e) && IsGap(gap)
    ensures WellFormed(AsWritten(e, gap))
    decreases e, 0
  {
    hide Binding, IsGap, Blank, Tightness;
    GapIsBlank(gap);
    match e
    case N =>
    case Decimals(_) =>
    case Grouped(a) => WellWritten(a, gap);
    case Inverse(a) => OperandWritten(a, 7, gap);
    case Joint(l, operator, r) =>
      OperandWritten(l, Binding(operator), gap);
      OperandWritten(r, Binding(operator) + 1, gap);
      OpIs(operator, 0, 0);
      BindingSmall(operator);
    case Conditional(c, a, b) =>
      OperandWritten(c, 1, gap);
      WellWritten(a, gap);
      WellWritten(b, gap);
  }

  lemma BindingSmall(operator: string)
    ensures Binding(operator) <= 6
  {
  }

  lemma {:induction false} OperandWritten(e: Form, tight: nat, gap: string)
    requires IsForm(e) && IsGap(gap)
    ensures WellFormed(AsOperand(e, tight, gap))
    ensures tight <= 8 ==> Tightness(AsOperand(e, tight, gap)) >= tight
    decreases e, 1
  {
    hide Binding, IsGap;
    GapIsBlank(gap);
    WellWritten(e, gap);
    TightnessIs(e, gap);
  }

  // ---- the same text

  lemma {:induction false} SpelledAs(e: Form, gap: string, rest: string)
    requires IsForm(e)
    ensures Spell(AsWritten(e, gap), rest) == FormText(e, gap) + rest
    decreases e, 0
  {
    hide Binding;
    match e
    case N =>
    case Decimals(v) =>
      DigitsAreDecimal(v);
      assert "" + (Decimal(v) + rest) == Decimal(v) + rest;
    case Grouped(a) =>
      SpelledAs(a, gap, gap + (")" + rest));
      Five("(", gap, FormText(a, gap), gap, ")", rest);
    case Inverse(a) =>
      OperandSpelledAs(a, 7, gap, rest);
      Three("!", gap, Operand(a, 7, gap), rest);
    case Joint(l, operator, r) =>
      var x, y := Operand(l, Binding(operator), gap), Operand(r, Binding(operator) + 1, gap);
      OpIs(operator, 0, 0);
      OperandSpelledAs(r, Binding(operator) + 1, gap, rest);
      OperandSpelledAs(l, Binding(operator), gap, gap + (operator + (gap + (y + rest))));
      Five(x, gap, operator, gap, y, rest);
    case Conditional(c, a, b) =>
      var x, y, z := Operand(c, 1, gap), FormText(a, gap), FormText(b, gap);
      SpelledAs(b, gap, rest);
      SpelledAs(a, gap, gap + (":" + (gap + (z + rest))));
      OperandSpelledAs(c, 1, gap, gap + ("?" + (gap + (y + (gap + (":" + (gap + (z + rest))))))));
      Nine(x, gap, "?", y, ":", z, rest);
  }

  lemma {:induction false} OperandSpelledAs(e: Form, tight: nat, gap: string, rest: string)
    requires IsForm(e)
    ensures Spell(AsOperand(e, tight, gap), rest) == Operand(e, tight, gap) + rest
    decreases e, 1
  {
    if FormBinding(e) >= tight {
      SpelledAs(e, gap, rest);
    } else {
      SpelledAs(e, gap, gap + (")" + rest));
      Five("(", gap, FormText(e, gap), gap, ")", rest);
    }
  }

  lemma Three(a: string, b: string, c: string, rest: string)
    ensures a + (b + (c + rest)) == (a + b + c) + rest
  {
  }

  lemma Five(a: string, b: string, c: string, d: string, e: string, rest: string)
    ensures a + (b + (c + (d + (e + rest)))) == (a + b + c + d + e) + rest
  {
  }

  lemma Nine(a: string, gap: string, b: string, c: string, d: string, e: string, rest: string)
    ensures a + (gap + (b + (gap + (c + (gap + (d + (gap + (e + rest))))))))
      == (a + gap + b + gap + c + gap + d + gap + e) + rest
  {
    var tail := gap + (d + (gap + (e + rest)));
    Five(a, gap, b, gap, c, tail);
    var front := a + gap + b + gap + c;
    Five(front, gap, d, gap, e, rest);
  }

  // ---- and the same value

  lemma {:induction false} MeansTheSame(e: Form, gap: string, n: u64)
    requires IsForm(e) && IsGap(gap) && WellFormed(AsWritten(e, gap))
    ensures Eval(Meaning(AsWritten(e, gap)), n) == FormValue(e, n)
    decreases e, 0
  {
    hide Binding, Computed, Apply, IsGap, Blank, Tightness;
    match e
    case N =>
    case Decimals(_) =>
    case Grouped(a) => MeansTheSame(a, gap, n);
    case Inverse(a) => OperandMeansTheSame(a, 7, gap, n);
    case Joint(l, operator, r) =>
      OperandMeansTheSame(l, Binding(operator), gap, n);
      OperandMeansTheSame(r, Binding(operator) + 1, gap, n);
      OpIs(operator, FormValue(l, n), FormValue(r, n));
    case Conditional(c, a, b) =>
      OperandMeansTheSame(c, 1, gap, n);
      MeansTheSame(a, gap, n);
      MeansTheSame(b, gap, n);
  }

  lemma {:induction false} OperandMeansTheSame(e: Form, tight: nat, gap: string, n: u64)
    requires IsForm(e) && IsGap(gap) && WellFormed(AsOperand(e, tight, gap))
    ensures Eval(Meaning(AsOperand(e, tight, gap)), n) == FormValue(e, n)
    decreases e, 1
  {
    hide Binding, IsGap, Blank, Computed;
    MeansTheSame(e, gap, n);
  }

  // Every such text compiles, to a function with the value C gives the expression.
  lemma ReadAsC(e: Form, gap: string, n: u64)
    requires IsForm(e) && IsGap(gap)
    ensures Parse(FormText(e, gap)).Some? && Parse(FormText(e, gap)).value(n) == Some(FormValue(e, n))
  {
    hide Binding, Computed, Apply, IsGap, Parse, FormText, FormValue, Meaning, Eval, AsWritten, WellFormed;
    WellWritten(e, gap);
    SpelledAs(e, gap, "");
    RoundTrip("", AsWritten(e, gap), "");
    MeansTheSame(e, gap, n);
    assert "" + Text(AsWritten(e, gap)) + "" == FormText(e, gap);
  }

  lemma JointText(l: Form, operator: string, r: Form, gap: string)
    requires FormBinding(l) >= Binding(operator) && FormBinding(r) > Binding(operator)
    ensures FormText(Joint(l, operator, r), gap)
      == FormText(l, gap) + gap + operator + gap + FormText(r, gap)
  {
  }

  lemma GroupedText(e: Form, gap: string)
    ensures FormText(Grouped(e), gap) == "(" + gap + FormText(e, gap) + gap + ")"
  {
  }

  // Of two operators next to each other the one that binds more tightly comes first, as if it stood in
  // parentheses; of two that bind alike the left one.
  lemma LeftFirst(a: Form, s: string, b: Form, t: string, c: Form, gap: string, n: u64)
    requires IsForm(a) && IsForm(b) && IsForm(c) && IsGap(gap) && Binding(s) >= Binding(t) > 0
    requires FormBinding(a) >= 7 && FormBinding(b) >= 7 && FormBinding(c) >= 7
    ensures var left, z := FormText(a, gap) + gap + s + gap + FormText(b, gap), FormText(c, gap);
      var bare, grouped := Parse(left + gap + t + gap + z), Parse("(" + gap + left + gap + ")" + gap + t + gap + z);
      bare.Some? && grouped.Some? && bare.value(n) == grouped.value(n)
  {
    hide Binding, Computed, IsGap, Parse, FormText;
    BindingSmall(s);
    BindingSmall(t);
    var left := Joint(a, s, b);
    JointText(a, s, b, gap);
    JointText(left, t, c, gap);
    GroupedText(left, gap);
    JointText(Grouped(left), t, c, gap);
    ReadAsC(Joint(left, t, c), gap, n);
    ReadAsC(Joint(Grouped(left), t, c), gap, n);
  }

  lemma RightFirst(a: Form, s: string, b: Form, t: string, c: Form, gap: string, n: u64)
    requires IsForm(a) && IsForm(b) && IsForm(c) && IsGap(gap) && 0 < Binding(s) < Binding(t)
    requires FormBinding(a) >= 7 && FormBinding(b) >= 7 && FormBinding(c) >= 7
    ensures var x, right := FormText(a, gap), FormText(b, gap) + gap + t + gap + FormText(c, gap);
      var bare, grouped :=
        Parse(x + gap + s + gap + right), Parse(x + gap + s + gap + ("(" + gap + right + gap + ")"));
      bare.Some? && grouped.Some? && bare.value(n) == grouped.value(n)
  {
    hide Binding, Computed, IsGap, Parse, FormText;
    BindingSmall(s);
    BindingSmall(t);
    var right := Joint(b, t, c);
    JointText(b, t, c, gap);
    JointText(a, s, right, gap);
    GroupedText(right, gap);
    JointText(a, s, Grouped(right), gap);
    ReadAsC(Joint(a, s, right), gap, n);
    ReadAsC(Joint(a, s, Grouped(right)), gap, n);
  }

  // Numbers are taken modulo 2^64 if they have a minus, and too large ones as the largest there is.
  lemma NumbersRead(sign: string, v: nat, n: u64)
    requires sign == "" || sign == "+" || sign == "-"
    ensures var f := Parse(sign + Digits(v));
      && f.Some?
      && f.value(n) == Some(if v >= 0x1_0000_0000_0000_0000 then 0xFFFF_FFFF_FFFF_FFFF
                            else if sign == "-" && v > 0 then 0x1_0000_0000_0000_0000 - v else v)
  {
    hide Digits, Decimal, Parse, AllDigits, Trim, Tight;
    DigitsAreDecimal(v);
    var w := Number(sign, Decimal(v));
    NumberTight(sign, Decimal(v));
    ReadsParse(w, sign + Decimal(v));
    assert Value(w, n) == Some(NumberValue(sign, Decimal(v)));
    if sign == "-" && 0 < v < MODULUS {
      Wraps(MODULUS - v);
    }
  }

  lemma NumberTight(sign: string, ds: string)
    requires (sign == "" || sign == "+" || sign == "-") && ds != "" && AllDigits(ds)
    ensures Reads(Number(sign, ds), "") && !Fails(Number(sign, ds))
    ensures Text(Number(sign, ds)) == sign + ds == Trim(sign + ds)
  {
    var s := sign + ds;
    assert ds + "" == ds;
    assert s[|s| - 1] == ds[|ds| - 1];
    assert s[0] == if sign == "" then ds[0] else sign[0];
    TrimTight(s);
  }

  // ---- arithmetic

  lemma Wraps(x: int)
    requires -MODULUS <= x < 2 * MODULUS
    ensures x % MODULUS == if x < 0 then x + MODULUS else if x < MODULUS then x else x - MODULUS
  {
  }

  // Taking away undoes adding.
  lemma SumAndDifference(a: u64, b: u64)
    ensures Apply(SUB, Apply(ADD, a, b), b) == a && Apply(ADD, Apply(SUB, a, b), b) == a
  {
    Wraps(a + b);
    Wraps(a - b);
    Wraps(Apply(ADD, a, b) - b);
    Wraps(Apply(SUB, a, b) + b);
  }

  // Quotient and rest make up the dividend.
  lemma QuotientAndRest(a: u64, b: u64)
    ensures b != 0 ==> a == Apply(DIV, a, b) * b + Apply(MOD, a, b) && Apply(MOD, a, b) < b
    ensures Apply(DIV, a, 0) == 0 && Apply(MOD, a, 0) == 0
  {
    if b != 0 {
      assert a == a / b * b + a % b;
    }
  }

  // Each comparison is another one's opposite, and so are the two connectives.
  lemma Opposites(a: u64, b: u64)
    ensures Apply(LT, a, b) == 1 - Apply(GE, a, b) && Apply(GT, a, b) == 1 - Apply(LE, a, b)
    ensures Apply(EQ, a, b) == 1 - Apply(NE, a, b) && Apply(LT, a, b) == Apply(GT, b, a)
    ensures Apply(EQ, a, b) == Apply(AND, Apply(LE, a, b), Apply(GE, a, b))
    ensures Apply(OR, a, b) == 1 - Apply(AND, Truth(a == 0), Truth(b == 0))
  {
  }
}
