// Which texts the plural-form compiler accepts, and where their functions have no value: every text
// it accepts can be read as a written form of module PluralSyntax.

module PluralReadings {
  import opened Options
  import opened Numbers
  import opened PluralOps
  import opened PluralParser
  import opened PluralSyntax

  // ---- reading a text at a level

  // What the parser takes of s at this level is w, and blanks b after it.
  ghost predicate ReadAs(level: nat, s: string, w: Written, b: string)
    requires level <= 8
  {
    var r := ParseAt(level, s);
    && s == Spell(w, b + r.rest) && Blank(b) && Reads(w, b + r.rest) && Tightness(w) >= level
    && (Fails(w) <==> r.f.None?)
    && (level == 0 ==> !StartsWith(r.rest, "?"))
  }

  // The parser was not stopped by an operator whose right operand it could not read. Such an operator
  // is never taken later, so it is in no accepted text.
  ghost predicate Free(level: nat, r: ParserResult) {
    Stops(if r.f.None? || level == 0 then 1 else level, r.rest)
  }

  lemma {:induction false} SplitBlank(t: string) returns (b: string)
    ensures Blank(b) && t == b + TrimFront(t)
  {
    if t != "" && IsSpace(t[0]) {
      b := SplitBlank(t[1..]);
      b := [t[0]] + b;
    } else {
      b := "";
    }
  }

  // The blanks between a token and what is trimmed after it.
  lemma Gapped(s: string, k: nat) returns (b: string)
    requires Tight(s) && 0 < k <= |s|
    ensures Blank(b) && s[k..] == b + Trim(s[k..])
    ensures Trim(s[k..]) == "" ==> b == ""
  {
    hide Trim;
    b := SplitBlank(s[k..]);
    var t := s[k..];
    assert EndsTight(t) by {
      assert t != "" ==> t[|t| - 1] == s[|s| - 1];
    }
    TrimFrontIsSuffix(t);
    TightBlank(t);
    assert b + "" == b;
  }

  lemma TightBlank(t: string)
    requires EndsTight(t)
    ensures Blank(t) ==> t == ""
  {
    assert t != "" ==> !IsSpace(t[|t| - 1]);
  }

  // Only blanks that are not at the end of the text are left before a form.
  lemma GapBefore(b: string, w: Written, rest: string)
    requires Blank(b) && Reads(w, rest) && (Spell(w, rest) == "" ==> b == "")
    ensures Gap(b, w)
  {
  }

  lemma AtomicReads(s: string) returns (w: Written, b: string)
    requires Tight(s) && !StartsWith(s, "!") && !StartsWith(s, "(")
    ensures ReadAs(8, s, w, b)
  {
    hide Trim, TrimFront, Wcstoul, Stops;
    if s == "" {
      w, b := Missing, "";
    } else if s[0] == 'n' {
      b := Gapped(s, 1);
      w := Name;
      assert s == "n" + s[1..];
      assert s[..1] == [s[0]];
    } else {
      assert s[..1] == [s[0]];
      w, b := NumberReads(s);
    }
  }

  lemma NumberReads(s: string) returns (w: Written, b: string)
    requires Tight(s) && s != "" && s[0] != '!' && s[0] != '(' && s[0] != 'n'
    ensures ReadAs(8, s, w, b)
  {
    hide Trim, TrimFront, Wcstoul, Stops;
    var end := Wcstoul(s).1;
    if end == 0 {
      w, b := Nothing, "";
      NothingReads(s);
    } else {
      b := Gapped(s, end);
      w := SomeNumber(s, b + Trim(s[end..]));
    }
  }

  lemma NothingReads(s: string)
    requires Tight(s) && s != "" && s[0] != '!' && s[0] != '(' && s[0] != 'n' && Wcstoul(s).1 == 0
    ensures ReadAs(8, s, Nothing, "")
  {
    hide Trim, TrimFront, Wcstoul, Stops, NoOperand;
    NoNumber(s);
    assert s[0..] == s;
    TightTrims(s);
    assert "" + s == s;
  }

  lemma TightTrims(s: string)
    requires Tight(s)
    ensures Trim(s) == s
  {
    TrimTight(s);
  }

  lemma NoNumber(s: string)
    requires Tight(s) && s != "" && s[0] != '!' && s[0] != '(' && s[0] != 'n' && Wcstoul(s).1 == 0
    ensures NoOperand(s)
  {
    assert TrimFront(s) == s;
  }

  function Unsigned(s: string): string {
    if s != "" && (s[0] == '-' || s[0] == '+') then s[1..] else s
  }

  lemma WcstoulEnd(s: string)
    requires s != "" && !IsSpace(s[0])
    ensures var k := CountDigits(Unsigned(s)); Wcstoul(s).1 == if k == 0 then 0 else |s| - |Unsigned(s)| + k
  {
    hide CountDigits, DigitsValue, Saturate, IsSpace;
    FrontTight(s);
  }

  lemma FrontTight(s: string)
    requires s == "" || !IsSpace(s[0])
    ensures TrimFront(s) == s
  {
  }

  lemma SignOf(s: string) returns (sign: string)
    ensures s == sign + Unsigned(s) && (sign == "" || sign == "+" || sign == "-")
  {
    sign := if s != "" && (s[0] == '-' || s[0] == '+') then [s[0]] else "";
  }

  lemma SomeNumber(s: string, rest: string) returns (w: Written)
    requires Tight(s) && s != "" && Wcstoul(s).1 > 0 && s[Wcstoul(s).1..] == rest
    ensures w.Number? && s == Spell(w, rest) && Reads(w, rest)
  {
    hide CountDigits, Wcstoul, IsSpace, Unsigned, Tight, AllDigits;
    TightStart(s);
    WcstoulEnd(s);
    var sign := SignOf(s);
    var digits := Unsigned(s);
    var k := CountDigits(digits);
    SplitDigits(digits);
    assert s[|sign| + k..] == digits[k..];
    w := Number(sign, digits[..k]);
  }

  lemma TightStart(s: string)
    requires Tight(s) && s != ""
    ensures !IsSpace(s[0])
  {
  }

  lemma SplitDigits(s: string)
    ensures var k := CountDigits(s); AllDigits(s[..k]) && !StartsWithDigit(s[k..]) && s == s[..k] + s[k..]
  {
    hide CountDigits;
    DigitsCounted(s);
  }

  // A form that fails is not followed by an operator.
  lemma {:induction false} FailureStops(w: Written, rest: string)
    requires Fails(w) && Reads(w, rest) && Tightness(w) >= 1
    ensures Stops(0, TrimFront(rest))
  {
    match w
    case Not(_, e) => FailureStops(e, rest);
    case Missing => NothingFollows();
    case Unclosed(_, _) =>
  }

  lemma {:induction false} ReadsAs(level: nat, s: string) returns (w: Written, b: string)
    requires level <= 8 && Tight(s) && Free(level, ParseAt(level, s)) && (level == 8 ==> !StartsWith(s, "!"))
    ensures ReadAs(level, s, w, b)
    decreases |s|, 20 - 2 * level
  {
    hide ReadAs, Free, ParseAt, Tight, StartsWith;
    if level == 0 {
      w, b := TernaryReads(s);
    } else if level <= 6 {
      w, b := LtrReads(level, s);
    } else if level == 7 {
      w, b := NegationReads(s);
    } else {
      w, b := ParenthesizedReads(s);
    }
  }

  lemma {:induction false} NegationReads(s: string) returns (w: Written, b: string)
    requires Tight(s) && Free(7, ParseAt(7, s))
    ensures ReadAs(7, s, w, b)
    decreases |s|, 5
  {
    hide Trim, Reads, Spell, Stops, Blank, Gap;
    if s == "" || s[0] != '!' {
      assert s != "" ==> s[..1] == [s[0]];
      assert ParseAt(7, s) == ParseAt(8, s);
      if ParseAt(7, s).f.Some? {
        StopsTighter(7, ParseAt(7, s).rest);
      }
      w, b := ReadsAs(8, s);
    } else {
      var gap := Gapped(s, 1);
      var e;
      e, b := ReadsAs(7, Trim(s[1..]));
      w := Not(gap, e);
      NotReadAs(s, gap, e, b);
    }
  }

  lemma NotReadAs(s: string, gap: string, e: Written, b: string)
    requires s != "" && s[0] == '!' && Blank(gap) && s[1..] == gap + Trim(s[1..]) && (Trim(s[1..]) == "" ==> gap == "")
    requires ReadAs(7, Trim(s[1..]), e, b)
    ensures ReadAs(7, s, Not(gap, e), b)
  {
    hide Trim;
    GapBefore(gap, e, b + ParseAt(7, s).rest);
    assert s == "!" + s[1..];
  }

  lemma {:induction false} ParenthesizedReads(s: string) returns (w: Written, b: string)
    requires Tight(s) && Free(8, ParseAt(8, s)) && !StartsWith(s, "!")
    ensures ReadAs(8, s, w, b)
    decreases |s|, 3
  {
    hide Trim, Reads, Spell, Blank, Gap, ReadAs, Free, Stops, ParseTernary;
    if StartsWith(s, "(") {
      var before := Gapped(s, 1);
      var t := Trim(s[1..]);
      var inner := ParseTernary(t);
      assert s[0] == '(' by {
        assert s[..1][0] == s[0];
      }
      assert ParseExpr(s[1..]) == inner;
      if inner.f.Some? && inner.rest != "" && inner.rest[0] == ')' {
        CloseIsFree(inner);
        var e, after := ReadsAs(0, t);
        b := Gapped(inner.rest, 1);
        w := Paren(before, e, after);
        ParenReadAs(s, before, e, after, b);
      } else {
        InnerIsFree(s, inner);
        var e;
        e, b := ReadsAs(0, t);
        w := Unclosed(before, e);
        UnclosedReadAs(s, before, e, b);
      }
    } else {
      w, b := AtomicReads(s);
    }
  }

  lemma CloseIsFree(r: ParserResult)
    requires r.rest != "" && (r.rest[0] == ')' || r.rest[0] == ':')
    ensures Free(0, r)
  {
    forall op: Op
      ensures !StartsWith(r.rest, op.Pattern())
    {
      assert op.Pattern()[0] != ')' && op.Pattern()[0] != ':';
      assert |op.Pattern()| <= |r.rest| ==> r.rest[..|op.Pattern()|][0] == r.rest[0];
    }
  }

  lemma InnerIsFree(s: string, inner: ParserResult)
    requires s != "" && s[0] == '(' && ParseExpr(s[1..]) == inner && Free(8, ParseAt(8, s))
    requires inner.f.None? || inner.rest == "" || inner.rest[0] != ')'
    ensures Free(0, inner) && ParseAt(8, s) == ParserResult(None, inner.rest)
  {
    hide Stops, ParseExpr;
  }

  lemma ParenReadAs(s: string, before: string, e: Written, after: string, b: string)
    requires s != "" && s[0] == '(' && Blank(before) && s[1..] == before + Trim(s[1..])
    requires ReadAs(0, Trim(s[1..]), e, after)
    requires var inner := ParseTernary(Trim(s[1..]));
      && inner.f.Some? && inner.rest != "" && inner.rest[0] == ')'
      && Blank(b) && inner.rest[1..] == b + Trim(inner.rest[1..])
    ensures ReadAs(8, s, Paren(before, e, after), b)
  {
    hide Trim, ParseTernary, Stops;
    var inner := ParseTernary(Trim(s[1..]));
    assert s == "(" + s[1..];
    assert inner.rest == ")" + inner.rest[1..];
    assert ParseExpr(s[1..]) == inner;
  }

  lemma UnclosedReadAs(s: string, before: string, e: Written, b: string)
    requires s != "" && s[0] == '(' && Blank(before) && s[1..] == before + Trim(s[1..])
    requires (Trim(s[1..]) == "" ==> before == "") && ReadAs(0, Trim(s[1..]), e, b)
    requires var inner := ParseTernary(Trim(s[1..]));
      Free(0, inner) && (inner.f.None? || inner.rest == "" || inner.rest[0] != ')')
    ensures ReadAs(8, s, Unclosed(before, e), b)
  {
    hide Trim, TrimFront, ParseTernary, Stops, Blank, Spell, Reads, Gap, Tight;
    var inner := ParseTernary(Trim(s[1..]));
    UnclosedResult(s, inner);
    GapBefore(before, e, b + inner.rest);
    FreeStops(inner);
    UnclosedReads(before, e, b, inner);
    assert s == "(" + s[1..];
    SpellUnclosed(before, e, b + inner.rest);
  }

  lemma SpellUnclosed(before: string, e: Written, rest: string)
    ensures Spell(Unclosed(before, e), rest) == "(" + (before + Spell(e, rest))
  {
  }

  lemma UnclosedResult(s: string, inner: ParserResult)
    requires s != "" && s[0] == '(' && inner == ParseTernary(Trim(s[1..]))
    requires inner.f.None? || inner.rest == "" || inner.rest[0] != ')'
    ensures ParseAt(8, s) == ParserResult(None, inner.rest)
  {
    hide Trim, ParseTernary;
    assert ParseExpr(s[1..]) == inner;
  }

  lemma UnclosedReads(before: string, e: Written, b: string, inner: ParserResult)
    requires Gap(before, e) && Blank(b) && Reads(e, b + inner.rest) && Stops(0, inner.rest) && Tight(inner.rest)
    requires Fails(e) <==> inner.f.None?
    requires inner.f.None? || inner.rest == "" || inner.rest[0] != ')'
    ensures Reads(Unclosed(before, e), b + inner.rest)
  {
    hide TrimFront, Stops, Blank, Gap;
    TrimFrontBlank(b, inner.rest);
    assert inner.rest != "" ==> inner.rest[..1] == [inner.rest[0]];
  }

  lemma FreeStops(r: ParserResult)
    requires Free(0, r) && !StartsWith(r.rest, "?")
    ensures Stops(0, r.rest)
  {
    forall op: Op
      ensures !StartsWith(r.rest, op.Pattern())
    {
      assert op.Level() >= 1;
    }
  }

  // ---- the loops

  lemma {:induction false} LtrReads(level: nat, s: string) returns (w: Written, b: string)
    requires 1 <= level <= 6 && Tight(s) && Free(level, ParseAt(level, s))
    ensures ReadAs(level, s, w, b)
    decreases |s|, 19 - 2 * level
  {
    hide Trim, Reads, Spell, Stops, Blank, ParseTighter, Reductions, ReadAs, StartsWith, Tight, Fails, Tightness;
    var pres := ParseTighter(level, s);
    TighterIsNext(level, s);
    NextFree(level, s);
    w, b := ReadsAs(level + 1, s);
    if pres.f.None? {
      FailureReadAs(level, s, w, b);
    } else {
      LtrStarts(level, s, w, b);
      w, b := ReadsLoop(level, s, pres, w, b);
      LtrReadAs(level, s, w, b);
    }
  }

  // What is left where a loop ends stops the loop, and what is left before it stops the tighter ones.
  lemma NextFree(level: nat, s: string)
    requires 1 <= level <= 6 && Tight(s) && Free(level, ParseAt(level, s))
    ensures Free(level + 1, ParseAt(level + 1, s))
  {
    hide ParseTighter, Trim, Stops, Reductions;
    TighterIsNext(level, s);
    var pres := ParseTighter(level, s);
    if pres.f.Some? {
      TightTrims(pres.rest);
      Unstuck(level, pres);
    }
  }

  lemma Unstuck(level: nat, res: ParserResult)
    requires 1 <= level <= 6 && res.f.Some? && Stops(level, Reductions(level, res).rest)
    ensures Stops(level + 1, res.rest)
  {
    hide Reductions, StartsWith;
    forall op: Op | op.Level() >= level + 1
      ensures !StartsWith(res.rest, op.Pattern())
    {
      if StartsWith(res.rest, op.Pattern()) {
        StuckStays(level, op, res);
      }
    }
  }

  // An operator of a tighter level is not taken.
  lemma StuckStays(level: nat, op: Op, res: ParserResult)
    requires 1 <= level <= 6 && res.f.Some? && op.Level() >= level + 1 && StartsWith(res.rest, op.Pattern())
    ensures Reductions(level, res) == res
  {
    hide Reduce;
    forall o | o in OpsAt(level)
      ensures !StartsWith(res.rest, o.Pattern())
    {
      LevelOf(level, o);
      LevelsShareNoSymbol(o, op);
      FirstSymbol(res.rest, op);
      if StartsWith(res.rest, o.Pattern()) {
        FirstSymbol(res.rest, o);
      }
    }
    ReduceMisses(level, OpsAt(level), res);
  }

  lemma FirstSymbol(t: string, op: Op)
    requires StartsWith(t, op.Pattern())
    ensures t != "" && t[0] == op.Pattern()[0]
  {
    assert t[..|op.Pattern()|][0] == t[0];
  }

  lemma LevelOf(level: nat, op: Op)
    requires op in OpsAt(level)
    ensures op.Level() == level
  {
  }

  lemma FailureReadAs(level: nat, s: string, w: Written, b: string)
    requires 1 <= level <= 6 && ReadAs(level + 1, s, w, b) && ParseTighter(level, s).f.None?
    ensures ReadAs(level, s, w, b)
  {
    hide ParseTighter, Reductions, Stops, Spell, Reads;
    TighterIsNext(level, s);
  }

  // w and the blanks b are taken before what is left of s.
  ghost predicate Taken(level: nat, s: string, rest: string, w: Written, b: string) {
    s == Spell(w, b + rest) && Blank(b) && Reads(w, b + rest) && Tightness(w) >= level && !Fails(w)
  }

  lemma LtrStarts(level: nat, s: string, w: Written, b: string)
    requires 1 <= level <= 6 && Tight(s) && ReadAs(level + 1, s, w, b) && ParseTighter(level, s).f.Some?
    ensures Taken(level, s, ParseTighter(level, s).rest, w, b)
    ensures ParseLtr(level, s) == Reductions(level, ParseTighter(level, s))
  {
    hide ParseTighter, Reductions, Stops, Spell, Reads, Trim, Blank;
    TighterIsNext(level, s);
    TightTrims(ParseTighter(level, s).rest);
  }

  lemma LtrReadAs(level: nat, s: string, w: Written, b: string)
    requires 1 <= level <= 6 && ParseLtr(level, s).f.Some? && Taken(level, s, ParseLtr(level, s).rest, w, b)
    ensures ReadAs(level, s, w, b)
  {
    hide ParseLtr, Stops, Spell, Reads, Blank;
  }

  lemma {:induction false} ReadsLoop(level: nat, s: string, pres: ParserResult, w0: Written, b0: string)
      returns (w: Written, b: string)
    requires 1 <= level <= 6 && pres.f.Some? && Tight(pres.rest) && Taken(level, s, pres.rest, w0, b0)
    requires Stops(level, Reductions(level, pres).rest)
    ensures Taken(level, s, Reductions(level, pres).rest, w, b)
    decreases |pres.rest|, 18 - 2 * level
  {
    hide Trim, Stops, Blank, ReadAs, ParseTighter, Taken, Reduce, StartsWith, Tight, Free, ParseAt;
    w, b := w0, b0;
    var next := Reduce(level, OpsAt(level), pres);
    if pres.rest != "" && next.f.Some? {
      TightTrims(next.rest);
      var op := Chosen(level, pres);
      var u := pres.rest[|op.Pattern()|..];
      var t := Trim(u);
      OperandFree(level, op, pres, next);
      var r, br := ReadsAs(level + 1, t);
      var gap := InfixTaken(level, s, pres, next, op, w, b, r, br);
      w, b := Infix(op, w, b, gap, r), br;
      w, b := ReadsLoop(level, s, next, w, b);
    }
  }

  // The operator that was taken is the one that matched first.
  lemma Chosen(level: nat, res: ParserResult) returns (op: Op)
    requires 1 <= level <= 6 && res.f.Some? && Reduce(level, OpsAt(level), res).f.Some?
    ensures op.Level() == level && StartsWith(res.rest, op.Pattern()) 
    ensures 0 < |op.Pattern()| <= |res.rest|
    ensures OperatorEnds(op, res.rest[|op.Pattern()|..])
    ensures Reduce(level, OpsAt(level), res) == ReduceSingle(level, op, res)
  {
    hide Reduce, ReduceSingle;
    var i := ChosenFrom(level, OpsAt(level), res);
    op := OpsAt(level)[i];
    LevelOf(level, op);
    NotTheLonger(level, i, res.rest);
  }

  lemma {:induction false} ChosenFrom(level: nat, ops: seq<Op>, res: ParserResult) returns (i: nat)
    requires 1 <= level <= 6 && res.f.Some? && Reduce(level, ops, res).f.Some?
    ensures i < |ops| && StartsWith(res.rest, ops[i].Pattern())
    ensures forall j :: 0 <= j < i ==> !StartsWith(res.rest, ops[j].Pattern())
    ensures Reduce(level, ops, res) == ReduceSingle(level, ops[i], res)
  {
    hide StartsWith;
    if ReduceSingle(level, ops[0], res).f.Some? {
      i := 0;
      TakenStarts(level, ops[0], res);
    } else {
      if StartsWith(res.rest, ops[0].Pattern()) {
        TakenShortens(level, ops[0], res);
      }
      i := ChosenFrom(level, ops[1..], res);
      i := i + 1;
    }
  }

  lemma TakenStarts(level: nat, op: Op, res: ParserResult)
    requires 1 <= level <= 6 && res.f.Some? && ReduceSingle(level, op, res).f.Some?
    ensures StartsWith(res.rest, op.Pattern())
  {
  }

  lemma TakenShortens(level: nat, op: Op, res: ParserResult)
    requires 1 <= level <= 6 && res.f.Some? && StartsWith(res.rest, op.Pattern())
    ensures |ReduceSingle(level, op, res).rest| < |res.rest|
  {
  }

  lemma NotTheLonger(level: nat, i: nat, t: string)
    requires i < |OpsAt(level)| && StartsWith(t, OpsAt(level)[i].Pattern())
    requires forall j :: 0 <= j < i ==> !StartsWith(t, OpsAt(level)[j].Pattern())
    ensures OperatorEnds(OpsAt(level)[i], t[|OpsAt(level)[i].Pattern()|..])
  {
    var op := OpsAt(level)[i];
    if op.LT? || op.GT? {
      LevelOf(level, op);
      var longer := OpsAt(level)[i - 2];
      assert longer.Pattern() == op.Pattern() + "=";
      LongerStarts(t, op.Pattern());
    }
  }

  lemma LongerStarts(t: string, p: string)
    requires StartsWith(t, p)
    ensures StartsWith(t[|p|..], "=") ==> StartsWith(t, p + "=")
  {
    if StartsWith(t[|p|..], "=") {
      assert t[|p|..][..1] == "=";
      assert t[..|p| + 1] == t[..|p|] + t[|p|..][..1];
    }
  }

  lemma OperandFree(level: nat, op: Op, pres: ParserResult, next: ParserResult)
    requires 1 <= level <= 6 && op.Level() == level && pres.f.Some? && StartsWith(pres.rest, op.Pattern())
      && pres.rest != ""
    requires next.f.Some? && next == ReduceSingle(level, op, pres) == Reduce(level, OpsAt(level), pres)
    requires Stops(level, Reductions(level, pres).rest) && Trim(next.rest) == next.rest && Tight(pres.rest)
    ensures var t := Trim(pres.rest[|op.Pattern()|..]);
      ParseAt(level + 1, t).f.Some? && ParseAt(level + 1, t).rest == next.rest && Free(level + 1, ParseAt(level + 1, t))
    ensures Reductions(level, pres) == Reductions(level, next) && Tight(next.rest) && |next.rest| < |pres.rest|
  {
    hide Trim, Stops, ParseTighter, Reduce, Tight;
    var t := Trim(pres.rest[|op.Pattern()|..]);
    TighterIsNext(level, t);
    TightTrims(ParseTighter(level, t).rest);
    assert Reductions(level, pres) == Reductions(level, next);
    Unstuck(level, next);
  }

  lemma InfixTaken(level: nat, s: string, pres: ParserResult, next: ParserResult, op: Op, w: Written, b: string,
                   r: Written, br: string)
      returns (gap: string)
    requires 1 <= level <= 6 && op.Level() == level && Tight(pres.rest) && StartsWith(pres.rest, op.Pattern())
    requires var u := pres.rest[|op.Pattern()|..];
      && OperatorEnds(op, u) && ReadAs(level + 1, Trim(u), r, br)
      && ParseAt(level + 1, Trim(u)).f.Some? && ParseAt(level + 1, Trim(u)).rest == next.rest
    requires Taken(level, s, pres.rest, w, b)
    ensures Taken(level, s, next.rest, Infix(op, w, b, gap, r), br)
  {
    hide Trim, Stops, Blank, ParseAt, OperatorEnds, Tight;
    var k := |op.Pattern()|;
    gap := Gapped(pres.rest, k);
    assert pres.rest == pres.rest[..k] + pres.rest[k..];
  }

  // ---- ternaries

  lemma {:induction false} TernaryReads(s: string) returns (w: Written, b: string)
    requires Tight(s) && Free(0, ParseAt(0, s))
    ensures ReadAs(0, s, w, b)
    decreases |s|, 19
  {
    hide Trim, Reads, Spell, Stops, Blank, ParseLtr, ParseTernary, ReadAs, StartsWith, Tight, Free, Fails, Tightness;
    var cond := ParseLtr(1, s);
    if cond.rest == "" || cond.rest[0] != '?' {
      NoConditionFree(s);
      w, b := ReadsAs(1, s);
      NoConditionReadAs(s, w, b);
    } else {
      QuestionIsFree(cond);
      var c, s1 := ReadsAs(1, s);
      ConditionSolid(s, c, s1);
      var s2 := Gapped(cond.rest, 1);
      var yes := Trim(cond.rest[1..]);
      var val := ParseTernary(yes);
      if val.rest == "" || val.rest[0] != ':' {
        NoColonFree(s, cond, val);
        var a;
        a, b := ReadsAs(0, yes);
        w := NoColon(c, s1, s2, a);
        NoColonReadAs(s, c, s1, s2, a, b);
      } else {
        CloseIsFree(val);
        var a, s3 := ReadsAs(0, yes);
        var s4 := Gapped(val.rest, 1);
        AltFree(s, cond, val);
        var no;
        no, b := ReadsAs(0, Trim(val.rest[1..]));
        w := Ternary(c, s1, s2, a, s3, s4, no);
        TernaryReadAs(s, c, s1, s2, a, s3, s4, no, b);
      }
    }
  }

  lemma NoConditionFree(s: string)
    requires Free(0, ParseAt(0, s))
    requires var cond := ParseLtr(1, s); cond.rest == "" || cond.rest[0] != '?'
    ensures Free(1, ParseAt(1, s))
  {
    hide ParseLtr, Stops;
  }

  lemma NoConditionReadAs(s: string, w: Written, b: string)
    requires ReadAs(1, s, w, b)
    requires var cond := ParseLtr(1, s); cond.rest == "" || cond.rest[0] != '?'
    ensures ReadAs(0, s, w, b)
  {
    hide ParseLtr, Stops, Spell, Reads, Blank;
    var t := ParseLtr(1, s).rest;
    assert t != "" ==> t[..1] == [t[0]];
  }

  lemma QuestionIsFree(r: ParserResult)
    requires r.rest != "" && r.rest[0] == '?'
    ensures Free(1, r)
  {
    forall op: Op
      ensures !StartsWith(r.rest, op.Pattern())
    {
      assert op.Pattern()[0] != '?';
      assert |op.Pattern()| <= |r.rest| ==> r.rest[..|op.Pattern()|][0] == r.rest[0];
    }
  }

  // A condition never fails: a failure is not followed by "?".
  lemma ConditionSolid(s: string, c: Written, b: string)
    requires ReadAs(1, s, c, b)
    requires var cond := ParseLtr(1, s); cond.rest != "" && cond.rest[0] == '?'
    ensures !Fails(c)
  {
    hide ParseLtr, TrimFront, Spell, Reads;
    var t := ParseLtr(1, s).rest;
    TrimFrontBlank(b, t);
    assert t[..1] == [t[0]];
    if Fails(c) {
      FailureStops(c, b + t);
    }
  }

  lemma NoColonFree(s: string, cond: ParserResult, val: ParserResult)
    requires cond == ParseLtr(1, s) && cond.rest != "" && cond.rest[0] == '?'
      && val == ParseTernary(Trim(cond.rest[1..]))
    requires val.rest == "" || val.rest[0] != ':'
    requires Free(0, ParseAt(0, s))
    ensures Free(0, val) && ParseAt(0, s) == ParserResult(None, val.rest)
  {
    hide ParseLtr, Stops, Trim;
  }

  lemma AltFree(s: string, cond: ParserResult, val: ParserResult)
    requires cond == ParseLtr(1, s) && cond.rest != "" && cond.rest[0] == '?'
      && val == ParseTernary(Trim(cond.rest[1..]))
    requires val.rest != "" && val.rest[0] == ':'
    requires Free(0, ParseAt(0, s))
    ensures Free(0, ParseAt(0, Trim(val.rest[1..])))
  {
    hide ParseLtr, Stops, Trim;
  }

  lemma NoColonReadAs(s: string, c: Written, s1: string, s2: string, a: Written, b: string)
    requires ReadAs(1, s, c, s1) && !Fails(c) && Blank(s2)
    requires var cond := ParseLtr(1, s);
      && cond.rest != "" && cond.rest[0] == '?' && cond.rest[1..] == s2 + Trim(cond.rest[1..])
      && (Trim(cond.rest[1..]) == "" ==> s2 == "")
      && ReadAs(0, Trim(cond.rest[1..]), a, b)
      && var val := ParseTernary(Trim(cond.rest[1..])); val.rest == "" || val.rest[0] != ':'
    ensures ReadAs(0, s, NoColon(c, s1, s2, a), b)
  {
    hide ParseLtr, Trim, TrimFront, Stops, Blank, Spell, Reads, Gap, Tight;
    var cond := ParseLtr(1, s);
    var val := ParseTernary(Trim(cond.rest[1..]));
    assert cond.rest == "?" + cond.rest[1..];
    GapBefore(s2, a, b + val.rest);
    NoColonReads(c, s1, s2, a, b, val.rest);
    SpellNoColon(c, s1, s2, a, b + val.rest);
    NotTwoMarks(Trim(cond.rest[1..]), a, b);
  }

  lemma SpellNoColon(c: Written, s1: string, s2: string, a: Written, rest: string)
    ensures Spell(NoColon(c, s1, s2, a), rest) == Spell(c, s1 + ("?" + (s2 + Spell(a, rest))))
  {
  }

  lemma NotTwoMarks(t: string, a: Written, b: string)
    requires ReadAs(0, t, a, b)
    ensures !StartsWith(ParseTernary(t).rest, "?")
  {
    hide ParseTernary, Spell, Reads, Blank, StartsWith;
  }

  lemma NoColonReads(c: Written, s1: string, s2: string, a: Written, b: string, t: string)
    requires Blank(s1) && Gap(s2, a) && !Fails(c) && Tightness(c) >= 1 && Blank(b) && Tight(t)
    requires Reads(a, b + t) && Reads(c, s1 + ("?" + (s2 + Spell(a, b + t)))) && (t == "" || t[0] != ':')
    ensures Reads(NoColon(c, s1, s2, a), b + t)
  {
    hide TrimFront, Blank, Gap, Spell;
    TrimFrontBlank(b, t);
    assert t != "" ==> t[..1] == [t[0]];
  }

  lemma TernaryReadAs(s: string, c: Written, s1: string, s2: string, a: Written, s3: string, s4: string, no: Written,
                      b: string)
    requires ReadAs(1, s, c, s1) && !Fails(c) && Blank(s2) && Blank(s4)
    requires var cond := ParseLtr(1, s);
      && cond.rest != "" && cond.rest[0] == '?' && cond.rest[1..] == s2 + Trim(cond.rest[1..])
      && ReadAs(0, Trim(cond.rest[1..]), a, s3)
      && var val := ParseTernary(Trim(cond.rest[1..]));
      && val.rest != "" && val.rest[0] == ':' && val.rest[1..] == s4 + Trim(val.rest[1..])
      && (Trim(val.rest[1..]) == "" ==> s4 == "")
      && ReadAs(0, Trim(val.rest[1..]), no, b)
    ensures ReadAs(0, s, Ternary(c, s1, s2, a, s3, s4, no), b)
  {
    hide ParseLtr, Trim, Stops, Blank, TrimFront, OperatorEnds, NoOperand, AllDigits, Tight;
    var cond := ParseLtr(1, s);
    var val := ParseTernary(Trim(cond.rest[1..]));
    var alt := ParseTernary(Trim(val.rest[1..]));
    assert cond.rest == "?" + cond.rest[1..];
    assert val.rest == ":" + val.rest[1..];
    GapBefore(s4, no, b + alt.rest);
  }

  // ---- what is accepted

  predicate EndsWith(s: string, rest: string) {
    |s| >= |rest| && s[|s| - |rest|..] == rest
  }

  lemma EndsLater(front: string, s: string, rest: string)
    requires EndsWith(s, rest)
    ensures EndsWith(front + s, rest)
  {
  }

  lemma EndsTwice(s: string, middle: string, rest: string)
    requires EndsWith(s, middle) && EndsWith(middle, rest)
    ensures EndsWith(s, rest)
  {
  }

  // Blanks, a token, blanks and a form before the rest.
  lemma EndsAfterForm(s1: string, token: string, s2: string, w: Written, rest: string)
    requires EndsWith(Spell(w, rest), rest)
    ensures EndsWith(s1 + (token + (s2 + Spell(w, rest))), rest)
  {
    hide EndsWith, Spell;
    EndsLater(s2, Spell(w, rest), rest);
    EndsLater(token, s2 + Spell(w, rest), rest);
    EndsLater(s1, token + (s2 + Spell(w, rest)), rest);
  }

  lemma EndsSelf(rest: string)
    ensures EndsWith(rest, rest)
  {
  }

  lemma {:induction false} SpellEnds(w: Written, rest: string)
    ensures EndsWith(Spell(w, rest), rest)
  {
    hide EndsWith;
    EndsSelf(rest);
    match w
    case Name => EndsLater("n", rest, rest);
    case Number(sign, ds) =>
      EndsLater(ds, rest, rest);
      EndsLater(sign, ds + rest, rest);
    case Nothing =>
    case Missing =>
    case Paren(s1, e, s2) =>
      var close := s2 + (")" + rest);
      SpellEnds(e, close);
      EndsLater(")", rest, rest);
      EndsLater(s2, ")" + rest, rest);
      EndsTwice(Spell(e, close), close, rest);
      EndsLater(s1, Spell(e, close), rest);
      EndsLater("(", s1 + Spell(e, close), rest);
    case Not(s1, e) =>
      SpellEnds(e, rest);
      EndsLater(s1, Spell(e, rest), rest);
      EndsLater("!", s1 + Spell(e, rest), rest);
    case Infix(op, l, s1, s2, r) =>
      SpellEnds(r, rest);
      EndsAfterForm(s1, op.Pattern(), s2, r, rest);
      var right := s1 + (op.Pattern() + (s2 + Spell(r, rest)));
      SpellEnds(l, right);
      EndsTwice(Spell(l, right), right, rest);
    case Ternary(c, s1, s2, a, s3, s4, b) =>
      SpellEnds(b, rest);
      EndsAfterForm(s3, ":", s4, b, rest);
      var colon := s3 + (":" + (s4 + Spell(b, rest)));
      SpellEnds(a, colon);
      EndsAfterForm(s1, "?", s2, a, colon);
      var question := s1 + ("?" + (s2 + Spell(a, colon)));
      SpellEnds(c, question);
      EndsTwice(Spell(c, question), question, colon);
      EndsTwice(Spell(c, question), colon, rest);
    case Unclosed(s1, e) =>
      SpellEnds(e, rest);
      EndsLater(s1, Spell(e, rest), rest);
      EndsLater("(", s1 + Spell(e, rest), rest);
    case NoColon(c, s1, s2, a) =>
      SpellEnds(a, rest);
      EndsAfterForm(s1, "?", s2, a, rest);
      var question := s1 + ("?" + (s2 + Spell(a, rest)));
      SpellEnds(c, question);
      EndsTwice(Spell(c, question), question, rest);
  }

  // Whatever reads all of the trimmed text is a form of it.
  lemma Whole(s: string) returns (w: Written)
    requires ParseExpr(s).rest == ""
    ensures Reads(w, "") && Text(w) == Trim(s) && (Fails(w) <==> ParseExpr(s).f.None?)
  {
    hide Spell, Reads, ParseTernary, Trim, Fails;
    var b;
    NothingFollows();
    EndIsFree(ParseExpr(s));
    w, b := ReadsAs(0, Trim(s));
    assert b + "" == b;
    NoBlanksLeft(w, b, Trim(s));
  }

  lemma EndIsFree(r: ParserResult)
    requires r.rest == ""
    ensures Free(0, r)
  {
    assert forall op: Op :: op.Pattern() != "";
  }

  lemma NoBlanksLeft(w: Written, b: string, s: string)
    requires s == Spell(w, b) && Blank(b) && Tight(s)
    ensures b == ""
  {
    SpellEnds(w, b);
    EndsTightToo(s, b);
    TightBlank(b);
  }

  lemma EndsTightToo(s: string, b: string)
    requires Tight(s) && EndsWith(s, b)
    ensures EndsTight(b)
  {
    assert b != "" ==> s[|s| - |b|..][|b| - 1] == s[|s| - 1];
  }

  // A text is accepted exactly if all of it can be read as a form that does not fail.
  lemma AcceptedExactly(s: string)
    ensures Parse(s).Some? <==> exists w :: Reads(w, "") && !Fails(w) && Text(w) == Trim(s)
  {
    hide Text, Reads, ParseExpr, Trim, Fails;
    if Parse(s).Some? {
      var w := Whole(s);
    }
    if w :| Reads(w, "") && !Fails(w) && Text(w) == Trim(s) {
      ReadsParse(w, s);
    }
  }

  // Evaluating w at n comes to an arm that fails.
  predicate Meets(w: Written, n: u64) {
    match w
    case Paren(_, e, _) => Meets(e, n)
    case Not(_, e) => Meets(e, n)
    case Infix(_, l, _, _, r) => Meets(l, n) || Meets(r, n)
    case Ternary(c, _, _, a, _, _, b) =>
      Meets(c, n) || (var arm := if Value(c, n) == Some(0) then b else a; Fails(arm) || Meets(arm, n))
    case _ => false
  }

  lemma {:induction false} NoValueMeets(w: Written, rest: string, n: u64)
    requires Reads(w, rest) && !Fails(w)
    ensures Value(w, n) == None <==> Meets(w, n)
    decreases w, 0
  {
    hide Spell, Stops, OperatorEnds, Blank, TrimFront, StartsWith, Apply, AllDigits, NoOperand;
    match w
    case Name =>
    case Number(_, _) =>
    case Nothing =>
    case Paren(_, e, s2) => NoValueMeets(e, s2 + (")" + rest), n);
    case Not(_, e) => NoValueMeets(e, rest, n);
    case Infix(op, l, s1, s2, r) =>
      NoValueMeets(l, s1 + (op.Pattern() + (s2 + Spell(r, rest))), n);
      NoValueMeets(r, rest, n);
    case Ternary(c, s1, s2, a, s3, s4, b) =>
      var colon := s3 + (":" + (s4 + Spell(b, rest)));
      NoValueMeets(c, s1 + ("?" + (s2 + Spell(a, colon))), n);
      ArmMeets(a, colon, n);
      ArmMeets(b, rest, n);
  }

  lemma {:induction false} ArmMeets(arm: Written, rest: string, n: u64)
    requires Reads(arm, rest)
    ensures Value(arm, n) == None <==> Fails(arm) || Meets(arm, n)
    decreases arm, 1
  {
    if Fails(arm) {
      FailsHasNoValue(arm, n);
    } else {
      NoValueMeets(arm, rest, n);
    }
  }

  // The function of an accepted text has the value of any form the text can be read as; calling it
  // fails exactly where the evaluation comes to an arm that fails.
  lemma CallFailsExactly(s: string, w: Written, n: u64)
    requires Parse(s).Some? && Reads(w, "") && Text(w) == Trim(s)
    ensures Parse(s).value(n) == Value(w, n)
    ensures Parse(s).value(n) == None <==> Meets(w, n)
  {
    hide Text, Reads, Parse, Trim, Meets, Value;
    ReadsParse(w, s);
    NoValueMeets(w, "", n);
    assert Computes(Parse(s).value, w);
  }

  // Some arm of w fails.
  predicate ArmLeftOut(w: Written) {
    match w
    case Paren(_, e, _) => ArmLeftOut(e)
    case Not(_, e) => ArmLeftOut(e)
    case Infix(_, l, _, _, r) => ArmLeftOut(l) || ArmLeftOut(r)
    case Ternary(c, _, _, a, _, _, b) => ArmLeftOut(c) || Fails(a) || ArmLeftOut(a) || Fails(b) || ArmLeftOut(b)
    case _ => false
  }

  lemma {:induction false} WholeMeetsNone(w: Written, n: u64)
    requires !ArmLeftOut(w)
    ensures !Meets(w, n)
  {
    match w
    case Paren(_, e, _) => WholeMeetsNone(e, n);
    case Not(_, e) => WholeMeetsNone(e, n);
    case Infix(_, l, _, _, r) =>
      WholeMeetsNone(l, n);
      WholeMeetsNone(r, n);
    case Ternary(c, _, _, a, _, _, b) =>
      WholeMeetsNone(c, n);
      WholeMeetsNone(a, n);
      WholeMeetsNone(b, n);
    case _ =>
  }

  // Without such an arm the function has a value everywhere.
  lemma TotalWithAllArms(s: string, w: Written, n: u64)
    requires Parse(s).Some? && Reads(w, "") && Text(w) == Trim(s) && !ArmLeftOut(w)
    ensures Parse(s).value(n).Some?
  {
    hide Text, Reads, Parse, Trim, Meets, Value, ArmLeftOut;
    WholeMeetsNone(w, n);
    CallFailsExactly(s, w, n);
  }

  // ---- some accepted texts

  lemma FormValue(s: string, w: Written, n: u64)
    requires Reads(w, "") && Text(w) == Trim(s) && !Fails(w)
    ensures Parse(s).Some? && Parse(s).value(n) == Value(w, n)
  {
    hide Parse, Trim, Text, Reads, Value;
    ReadsParse(w, s);
    CallFailsExactly(s, w, n);
  }

  lemma DigitReads(ds: string, rest: string, n: u64)
    requires |ds| == 1 && IsDigit(ds[0]) && !StartsWithDigit(rest)
    ensures Reads(Number("", ds), rest) && Value(Number("", ds), n) == Some(DigitValue(ds[0]))
    ensures Spell(Number("", ds), rest) == ds + rest
  {
    assert ds[..0] == "";
    assert DigitsValue("") == 0;
    assert DigitsValue(ds) == DigitValue(ds[0]);
  }

  // "n?(1:2": an arm whose parenthesis is not closed.
  lemma UnclosedArm(n: u64)
    ensures var s := "n?(1:2"; Parse(s).Some? && Parse(s).value(n) == if n == 0 then Some(2) else None
  {
    hide Parse, Trim, Reads, Text;
    var one, two := Number("", "1"), Number("", "2");
    var w := Ternary(Name, "", "", Unclosed("", one), "", "", two);
    UnclosedArmReads();
    TightTrims("n?(1:2");
    FormValue("n?(1:2", w, n);
    DigitReads("2", "", n);
    ChoiceValue(w, n);
  }

  lemma ChoiceValue(w: Written, n: u64)
    requires w.Ternary? && w.cond.Name? && Fails(w.yes)
    ensures Value(w, n) == if n == 0 then Value(w.no, n) else None
  {
    FailsHasNoValue(w.yes, n);
  }

  lemma UnclosedArmReads()
    ensures var w := Ternary(Name, "", "", Unclosed("", Number("", "1")), "", "", Number("", "2"));
      Reads(w, "") && Text(w) == "n?(1:2"
  {
    hide Stops, TrimFront;
    var one, two := Number("", "1"), Number("", "2");
    var colon := "" + (":" + ("" + "2"));
    DigitReads("2", "", 0);
    DigitReads("1", colon, 0);
    CloseTail(':', "", "2");
    assert colon == ":2" == "" + ([':'] + "2");
    UnclosedText(one, two, colon);
  }

  lemma UnclosedText(one: Written, two: Written, colon: string)
    requires colon == ":2" && Spell(one, colon) == "1" + colon && Spell(two, "") == "2"
    ensures Text(Ternary(Name, "", "", Unclosed("", one), "", "", two)) == "n?(1:2"
  {
    var arm := Unclosed("", one);
    var w := Ternary(Name, "", "", arm, "", "", two);
    assert "" + (":" + ("" + Spell(two, ""))) == colon;
    assert Spell(arm, colon) == "(" + ("" + ("1" + colon));
    assert Spell(arm, colon) == "(1:2";
    assert Text(w) == Spell(Name, "" + ("?" + ("" + Spell(arm, colon))));
    assert "n" + ("" + ("?" + ("" + "(1:2"))) == "n?(1:2";
  }

  // "()": an operand that is not there.
  lemma EmptyParentheses(n: u64)
    ensures Parse("()").Some? && Parse("()").value(n) == Some(0)
  {
    hide Parse, ParseExpr, Trim;
    var w := Paren("", Nothing, "");
    assert Text(w) == "()";
    TightTrims("()");
    FormValue("()", w, n);
    assert Value(w, n) == Some(0);
  }

  // "1?2:": an arm left out, and a value everywhere all the same.
  lemma ArmNeverMet(n: u64)
    ensures var w := Ternary(Number("", "1"), "", "", Number("", "2"), "", "", Missing);
      ArmLeftOut(w) && Text(w) == "1?2:" && Parse("1?2:").Some? && Parse("1?2:").value(n) == Some(2)
  {
    hide Parse, Trim, Reads, Text;
    var one, two := Number("", "1"), Number("", "2");
    var w := Ternary(one, "", "", two, "", "", Missing);
    MissingArmReads();
    TightTrims("1?2:");
    FormValue("1?2:", w, n);
    DigitReads("1", "", n);
    DigitReads("2", "", n);
  }

  lemma MissingArmReads()
    ensures var w := Ternary(Number("", "1"), "", "", Number("", "2"), "", "", Missing);
      Reads(w, "") && Text(w) == "1?2:"
  {
    var one, two := Number("", "1"), Number("", "2");
    assert "" + (":" + ("" + "")) == ":";
    DigitReads("2", ":", 0);
    assert "" + ("?" + ("" + "2:")) == "?2:";
    DigitReads("1", "?2:", 0);
    assert Spell(two, ":") == "2:" && Spell(one, "?2:") == "1?2:";
  }
}
