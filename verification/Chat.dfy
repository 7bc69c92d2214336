// Wrapping chat messages into lines of the console (src/chat.cpp), on plain characters.

module ChatText {
  datatype Fragment = Fragment(text: string, column: nat, weblink: string)
  datatype FormattedLine = FormattedLine(fragments: seq<Fragment>, first: bool)

  // The column that stands for "end the line after this fragment".
  const INT_MAX := 0x7FFF_FFFF

  // ---- the text fragments and lines spell

  function Spell(frags: seq<Fragment>): string {
    if frags == [] then "" else frags[0].text + Spell(frags[1..])
  }

  lemma {:induction false} SpellConcat(a: seq<Fragment>, b: seq<Fragment>)
    ensures Spell(a + b) == Spell(a) + Spell(b)
  {
    if a == [] {
      assert a + b == b && "" + Spell(b) == Spell(b);
    } else {
      assert (a + b)[1..] == a[1..] + b;
      SpellConcat(a[1..], b);
      assert a[0].text + (Spell(a[1..]) + Spell(b)) == (a[0].text + Spell(a[1..])) + Spell(b);
    }
  }

  lemma SpellOne(f: Fragment)
    ensures Spell([f]) == f.text
  {
    assert Spell([f][1..]) == "";
    assert f.text + "" == f.text;
  }

  function SpellLines(lines: seq<FormattedLine>): string {
    if lines == [] then "" else SpellLines(lines[..|lines| - 1]) + Spell(lines[|lines| - 1].fragments)
  }

  lemma SpellLinesSnoc(lines: seq<FormattedLine>, l: FormattedLine)
    ensures SpellLines(lines + [l]) == SpellLines(lines) + Spell(l.fragments)
  {
    assert (lines + [l])[..|lines|] == lines;
  }

  // ---- columns

  // The fragments follow one another without a gap from column start to column end.
  predicate Laid(frags: seq<Fragment>, start: nat, end: nat) {
    if frags == [] then start == end
    else
      var last := frags[|frags| - 1];
      last.column + |last.text| == end && Laid(frags[..|frags| - 1], start, last.column)
  }

  lemma LaidSnoc(frags: seq<Fragment>, start: nat, end: nat, f: Fragment)
    requires Laid(frags, start, end) && f.column == end
    ensures Laid(frags + [f], start, end + |f.text|)
  {
    assert (frags + [f])[..|frags|] == frags;
  }

  lemma {:induction false} LaidSpell(frags: seq<Fragment>, start: nat, end: nat)
    requires Laid(frags, start, end)
    ensures end == start + |Spell(frags)|
    ensures forall f :: f in frags ==> start <= f.column && f.column + |f.text| <= end
  {
    if frags != [] {
      var rest, last := frags[..|frags| - 1], frags[|frags| - 1];
      LaidSpell(rest, start, last.column);
      assert frags == rest + [last];
      SpellConcat(rest, [last]);
      SpellOne(last);
    }
  }

  // ---- where lines may break

  // A line may end in column e, having spelled s[..p], if it is full, or after a whitespace when
  // up to the full width there is more text and no other whitespace.
  ghost predicate MayBreak(s: string, p: nat, e: nat, cols: nat, isSpace: char -> bool) {
    e == cols ||
    (e < cols && 0 < p && p + (cols - e) < |s| && isSpace(s[p - 1]) && forall q :: p <= q < p + (cols - e) ==>
     !isSpace(s[q]))
  }

  function StartColumn(i: nat, hanging: nat): nat {
    if i == 0 then 0 else hanging
  }

  // Lines that start in their column, stay within the console and break where they may; only the
  // last can be one that ends with the text.
  ghost predicate Wrapped(s: string, lines: seq<FormattedLine>, cols: nat, hanging: nat, isSpace: char -> bool,
                          lastToo: bool)
    decreases |lines|
  {
    lines != [] ==>
      var n := |lines| - 1;
      var e := StartColumn(n, hanging) + |Spell(lines[n].fragments)|;
      && lines[n].first == (n == 0) && e <= cols && Laid(lines[n].fragments, StartColumn(n, hanging), e)
      && (lastToo ==> MayBreak(s, |SpellLines(lines)|, e, cols, isSpace))
      && Wrapped(s, lines[..n], cols, hanging, isSpace, true)
  }

  lemma WrappedSnoc(s: string, lines: seq<FormattedLine>, l: FormattedLine, e: nat, cols: nat, hanging: nat,
                    isSpace: char -> bool, lastToo: bool)
    requires Wrapped(s, lines, cols, hanging, isSpace, true)
    requires l.first == (|lines| == 0) && e <= cols && Laid(l.fragments, StartColumn(|lines|, hanging), e)
    requires lastToo ==> MayBreak(s, |SpellLines(lines)| + |Spell(l.fragments)|, e, cols, isSpace)
    ensures Wrapped(s, lines + [l], cols, hanging, isSpace, lastToo)
  {
    assert (lines + [l])[..|lines|] == lines;
    LaidSpell(l.fragments, StartColumn(|lines|, hanging), e);
    SpellLinesSnoc(lines, l);
  }

  // What the console promises of the lines of one message.
  ghost predicate Formats(s: string, lines: seq<FormattedLine>, cols: nat, hanging: nat, isSpace: char -> bool) {
    lines != [] && SpellLines(lines) == s && Wrapped(s, lines, cols, hanging, isSpace, false)
  }

  lemma {:induction false} WrappedLines(s: string, lines: seq<FormattedLine>, cols: nat, hanging: nat,
                                        isSpace: char -> bool,
                                        lastToo: bool, i: nat)
    requires Wrapped(s, lines, cols, hanging, isSpace, lastToo) && i < |lines|
    ensures lines[i].first == (i == 0)
    ensures forall f :: f in lines[i].fragments ==> StartColumn(i, hanging) <= f.column && f.column + |f.text| <= cols
    ensures i < |lines| - 1 ==>
      MayBreak(s, |SpellLines(lines[..i + 1])|, StartColumn(i, hanging) + |Spell(lines[i].fragments)|, cols, isSpace)
    decreases |lines|
  {
    hide MayBreak, Laid, SpellLines, Spell;
    var n := |lines| - 1;
    if i == n {
      LaidSpell(lines[n].fragments, StartColumn(n, hanging), StartColumn(n, hanging) + |Spell(lines[n].fragments)|);
    } else {
      assert lines[..n][i] == lines[i] && lines[..n][..i + 1] == lines[..i + 1];
      if i == n - 1 {
        assert lines[..i + 1] == lines[..n];
      }
      WrappedLines(s, lines[..n], cols, hanging, isSpace, true, i);
    }
  }

  // In lines that were formatted only the first is marked, every fragment ends by the last column,
  // and every line but the last is full or ends after the last whitespace that fits.
  lemma FormattedLines(s: string, lines: seq<FormattedLine>, cols: nat, hanging: nat, isSpace: char -> bool, i: nat)
    requires Formats(s, lines, cols, hanging, isSpace) && i < |lines|
    ensures lines[i].first == (i == 0)
    ensures forall f :: f in lines[i].fragments ==> StartColumn(i, hanging) <= f.column && f.column + |f.text| <= cols
    ensures i < |lines| - 1 ==>
      MayBreak(s, |SpellLines(lines[..i + 1])|, StartColumn(i, hanging) + |Spell(lines[i].fragments)|, cols, isSpace)
  {
    WrappedLines(s, lines, cols, hanging, isSpace, false, i);
  }
}

// Laying fragments out into lines.
module ChatLayout {
  import opened ChatText

  // The lines ended, the current line and its column, and the fragments waiting.
  datatype Layout = Layout(lines: seq<FormattedLine>, current: FormattedLine, column: nat, waiting: seq<Fragment>)

  // A line may be ended by force in column e after s[..p]: it is full anyway, or may break, or the
  // text is at its end.
  ghost predicate MayForce(s: string, p: nat, e: nat, cols: nat, isSpace: char -> bool) {
    e >= cols || p == |s| || MayBreak(s, p, e, cols, isSpace)
  }

  // Only the last fragment can force a new line; the ones before it do not fill the current one.
  ghost predicate Waiting(s: string, p: nat, column: nat, waiting: seq<Fragment>, cols: nat, isSpace: char -> bool) {
    && (forall j :: 0 <= j < |waiting| - 1 ==> waiting[j].column != INT_MAX)
    && (waiting != [] && waiting[|waiting| - 1].column == INT_MAX ==>
      && column + |Spell(waiting[..|waiting| - 1])| < cols
      && MayForce(s, p + |Spell(waiting)|, column + |Spell(waiting)|, cols, isSpace))
  }

  // While fragments are laid out; rest is the text of which no fragments were made yet.
  ghost predicate Laying(s: string, l: Layout, rest: string, cols: nat, hanging: nat, isSpace: char -> bool) {
    && hanging < cols && l.column < cols
    && s == SpellLines(l.lines) + Spell(l.current.fragments) + Spell(l.waiting) + rest
    && Laid(l.current.fragments, StartColumn(|l.lines|, hanging), l.column)
    && (l.current.first <==> l.lines == [])
    && (Wrapped(s, l.lines, cols, hanging, isSpace, true) ||
        (l.lines != [] && Wrapped(s, l.lines, cols, hanging, isSpace, false)
         && l.waiting == [] && rest == "" && l.current.fragments == []))
    && Waiting(s, |SpellLines(l.lines)| + |Spell(l.current.fragments)|, l.column, l.waiting, cols, isSpace)
  }

  // The current line is ended.
  function EndLine(l: Layout, hanging: nat): Layout {
    l.(lines := l.lines + [l.current], current := FormattedLine([], false), column := hanging)
  }

  // One round of the layout loop.
  function LayOne(l: Layout, cols: nat, hanging: nat): Layout
    requires l.waiting != [] && l.column < cols
  {
    var frag, room := l.waiting[0], cols - l.column;
    if |frag.text| <= room then
      var l' := l.(current := l.current.(fragments := l.current.fragments + [frag.(column := l.column)]),
        column := l.column + |frag.text|, waiting := l.waiting[1..]);
      if l'.column == cols || frag.column == INT_MAX then EndLine(l', hanging) else l'
    else
      EndLine(l.(current :=
                 l.current.(fragments := l.current.fragments + [Fragment(frag.text[..room], l.column, frag.weblink)]),
        waiting := [frag.(text := frag.text[room..], column := 0)] + l.waiting[1..]), hanging)
  }

  lemma FourParts(a: string, b: string, x: string, c: string, d: string)
    ensures a + b + (x + c) + d == a + (b + x) + c + d
  {
  }

  lemma BetweenEnds(waiting: seq<Fragment>)
    requires |waiting| > 1
    ensures var n := |waiting|;
      waiting[..n - 1][0] == waiting[0] && waiting[..n - 1][1..] == waiting[1..][..n - 2]
  {
  }

  // The fragment fits, and the line goes on.
  lemma FitsOn(s: string, l: Layout, rest: string, cols: nat, hanging: nat, isSpace: char -> bool)
    requires Laying(s, l, rest, cols, hanging, isSpace) && l.waiting != []
    requires l.column + |l.waiting[0].text| < cols && l.waiting[0].column != INT_MAX
    ensures Laying(s, LayOne(l, cols, hanging), rest, cols, hanging, isSpace)
  {
    hide Wrapped, MayForce, SpellLines, Laid;
    var frag := l.waiting[0];
    var placed := frag.(column := l.column);
    var l' := LayOne(l, cols, hanging);
    SpellConcat(l.current.fragments, [placed]);
    SpellOne(placed);
    LaidSnoc(l.current.fragments, StartColumn(|l.lines|, hanging), l.column, placed);
    FourParts(SpellLines(l.lines), Spell(l.current.fragments), frag.text, Spell(l.waiting[1..]), rest);
    var n := |l.waiting|;
    if n > 1 {
      BetweenEnds(l.waiting);
      assert l'.waiting[n - 2] == l.waiting[n - 1];
    }
  }

  // A line is ended that may be ended.
  lemma Ended(s: string, l: Layout, rest: string, cols: nat, hanging: nat, isSpace: char -> bool)
    requires hanging < cols && l.column <= cols
    requires s == SpellLines(l.lines) + Spell(l.current.fragments) + Spell(l.waiting) + rest
    requires Laid(l.current.fragments, StartColumn(|l.lines|, hanging), l.column)
    requires (l.current.first <==> l.lines == []) && Wrapped(s, l.lines, cols, hanging, isSpace, true)
    requires forall j :: 0 <= j < |l.waiting| ==> l.waiting[j].column != INT_MAX
    requires var p := |SpellLines(l.lines)| + |Spell(l.current.fragments)|;
      MayBreak(s, p, l.column, cols, isSpace) || (l.waiting == [] && p == |s|)
    ensures Laying(s, EndLine(l, hanging), rest, cols, hanging, isSpace)
  {
    hide MayBreak, MayForce, Wrapped, SpellLines, Spell, Laid, Waiting;
    var before, current, waiting := SpellLines(l.lines), Spell(l.current.fragments), Spell(l.waiting);
    SpellLinesSnoc(l.lines, l.current);
    NothingCurrent(hanging);
    Moved(before, current, waiting, rest);
    NoneWaitsToForce(s, |before| + |current|, hanging, l.waiting, cols, isSpace);
    var lastToo := MayBreak(s, |before| + |current|, l.column, cols, isSpace);
    WrappedSnoc(s, l.lines, l.current, l.column, cols, hanging, isSpace, lastToo);
  }

  lemma NothingCurrent(hanging: nat)
    ensures Spell([]) == "" && Laid([], hanging, hanging)
  {
  }

  lemma Moved(a: string, b: string, c: string, d: string)
    ensures a + b + c + d == (a + b) + "" + c + d
    ensures |a| + |b| == |a + b + c + d| ==> d == ""
  {
    assert (a + b) + "" == a + b;
  }

  lemma NoneWaitsToForce(s: string, p: nat, column: nat, waiting: seq<Fragment>, cols: nat, isSpace: char -> bool)
    requires forall j :: 0 <= j < |waiting| ==> waiting[j].column != INT_MAX
    ensures Waiting(s, p, column, waiting, cols, isSpace)
  {
  }

  lemma SpellAtLeast(frags: seq<Fragment>)
    requires frags != []
    ensures |Spell(frags)| >= |frags[0].text|
  {
  }

  // The first waiting fragment cannot fill the line if another one is to end it by force.
  lemma NoneForces(s: string, p: nat, column: nat, waiting: seq<Fragment>, cols: nat, isSpace: char -> bool)
    requires Waiting(s, p, column, waiting, cols, isSpace) && waiting != [] && column + |waiting[0].text| >= cols
    ensures forall j :: 0 < j < |waiting| ==> waiting[j].column != INT_MAX
  {
    if |waiting| > 1 {
      SpellAtLeast(waiting[..|waiting| - 1]);
    }
  }

  lemma FitsAndEnds(s: string, l: Layout, rest: string, cols: nat, hanging: nat, isSpace: char -> bool)
    requires Laying(s, l, rest, cols, hanging, isSpace) && l.waiting != []
    requires l.column + |l.waiting[0].text| == cols
      || (l.column + |l.waiting[0].text| < cols && l.waiting[0].column == INT_MAX)
    ensures Laying(s, LayOne(l, cols, hanging), rest, cols, hanging, isSpace)
  {
    hide Wrapped, SpellLines, Laid, MayBreak, Laying;
    var frag := l.waiting[0];
    var placed := frag.(column := l.column);
    var frags := l.current.fragments + [placed];
    var l1 := l.(current := l.current.(fragments := frags), column := l.column + |frag.text|, waiting :=
                 l.waiting[1..]);
    Unfold(s, l, rest, cols, hanging, isSpace);
    SpellConcat(l.current.fragments, [placed]);
    SpellOne(placed);
    LaidSnoc(l.current.fragments, StartColumn(|l.lines|, hanging), l.column, placed);
    FourParts(SpellLines(l.lines), Spell(l.current.fragments), frag.text, Spell(l.waiting[1..]), rest);
    var p := |SpellLines(l.lines)| + |Spell(l.current.fragments)|;
    if l1.column == cols {
      NoneForces(s, p, l.column, l.waiting, cols, isSpace);
      FullMayBreak(s, p + |frag.text|, cols, isSpace);
    } else {
      assert l.waiting == [frag] && Spell(l.waiting) == frag.text + Spell([]);
    }
    Ended(s, l1, rest, cols, hanging, isSpace);
  }

  lemma FullMayBreak(s: string, p: nat, cols: nat, isSpace: char -> bool)
    ensures MayBreak(s, p, cols, cols, isSpace)
  {
  }

  // What Laying says as long as fragments wait.
  lemma Unfold(s: string, l: Layout, rest: string, cols: nat, hanging: nat, isSpace: char -> bool)
    requires Laying(s, l, rest, cols, hanging, isSpace) && l.waiting != []
    ensures hanging < cols && l.column < cols && Wrapped(s, l.lines, cols, hanging, isSpace, true)
    ensures s == SpellLines(l.lines) + Spell(l.current.fragments) + Spell(l.waiting) + rest
    ensures Laid(l.current.fragments, StartColumn(|l.lines|, hanging), l.column) && (l.current.first <==> l.lines == [])
    ensures Waiting(s, |SpellLines(l.lines)| + |Spell(l.current.fragments)|, l.column, l.waiting, cols, isSpace)
  {
  }

  lemma Splits(s: string, l: Layout, rest: string, cols: nat, hanging: nat, isSpace: char -> bool)
    requires Laying(s, l, rest, cols, hanging, isSpace) && l.waiting != [] && l.column + |l.waiting[0].text| > cols
    ensures Laying(s, LayOne(l, cols, hanging), rest, cols, hanging, isSpace)
  {
    hide Wrapped, SpellLines, Laid, MayBreak, Laying, Spell, Waiting;
    Unfold(s, l, rest, cols, hanging, isSpace);
    var frag, room := l.waiting[0], cols - l.column;
    var placed := Fragment(frag.text[..room], l.column, frag.weblink);
    var left := frag.(text := frag.text[room..], column := 0);
    var frags := l.current.fragments + [placed];
    var l1 := l.(current := l.current.(fragments := frags), waiting := [left] + l.waiting[1..]);
    SpellSnoc(l.current.fragments, placed);
    LaidSnoc(l.current.fragments, StartColumn(|l.lines|, hanging), l.column, placed);
    SpellSplit(l.waiting, room, placed, left);
    FourParts(SpellLines(l.lines), Spell(l.current.fragments), placed.text, Spell(l1.waiting), rest);
    var p := |SpellLines(l.lines)| + |Spell(l.current.fragments)|;
    NoneForces(s, p, l.column, l.waiting, cols, isSpace);
    FullMayBreak(s, p + room, cols, isSpace);
    Ended(s, l1.(column := cols), rest, cols, hanging, isSpace);
  }

  lemma SpellSnoc(frags: seq<Fragment>, f: Fragment)
    ensures Spell(frags + [f]) == Spell(frags) + f.text
  {
    SpellConcat(frags, [f]);
    SpellOne(f);
  }

  // A fragment cut in two spells the same.
  lemma SpellSplit(waiting: seq<Fragment>, room: nat, placed: Fragment, left: Fragment)
    requires waiting != [] && room <= |waiting[0].text|
    requires placed.text == waiting[0].text[..room] && left.text == waiting[0].text[room..]
    ensures Spell(waiting) == placed.text + Spell([left] + waiting[1..])
  {
    assert waiting[0].text == placed.text + left.text;
    assert ([left] + waiting[1..])[1..] == waiting[1..];
    assert (placed.text + left.text) + Spell(waiting[1..]) == placed.text + (left.text + Spell(waiting[1..]));
  }

  lemma LayOneKeeps(s: string, l: Layout, rest: string, cols: nat, hanging: nat, isSpace: char -> bool)
    requires Laying(s, l, rest, cols, hanging, isSpace) && l.waiting != []
    ensures Laying(s, LayOne(l, cols, hanging), rest, cols, hanging, isSpace)
    ensures |Spell(LayOne(l, cols, hanging).waiting)| + |LayOne(l, cols, hanging).waiting| < |Spell(l.waiting)|
      + |l.waiting|
  {
    var frag, room := l.waiting[0], cols - l.column;
    if |frag.text| > room {
      assert ([frag.(text := frag.text[room..], column := 0)] + l.waiting[1..])[1..] == l.waiting[1..];
    }
    hide Laying;
    if |frag.text| > room {
      Splits(s, l, rest, cols, hanging, isSpace);
    } else if |frag.text| == room || frag.column == INT_MAX {
      FitsAndEnds(s, l, rest, cols, hanging, isSpace);
    } else {
      FitsOn(s, l, rest, cols, hanging, isSpace);
    }
  }

  // ---- links and the fragments made of the text

  predicate At(s: string, pattern: string, i: int) {
    0 <= i && i + |pattern| <= |s| && s[i..i + |pattern|] == pattern
  }

  // std::wstring::find
  function Find(s: string, pattern: string, from: nat): (r: int)
    ensures r == -1 || (r >= from && At(s, pattern, r))
    ensures r == -1 ==> forall i :: i >= from ==> !At(s, pattern, i)
    ensures r != -1 ==> forall i :: from <= i < r ==> !At(s, pattern, i)
    decreases |s| - from
  {
    if from + |pattern| > |s| then -1
    else if s[from..from + |pattern|] == pattern then from
    else Find(s, pattern, from + 1)
  }

  // The next link at or after a position: secure ones are looked for first.
  function NextLink(s: string, from: nat): int {
    if Find(s, "https://", from) != -1 then Find(s, "https://", from) else Find(s, "http://", from)
  }

  lemma NextLinkFound(s: string, from: nat)
    ensures NextLink(s, from) != -1 ==>
      from <= NextLink(s, from) && (At(s, "https://", NextLink(s, from)) || At(s, "http://", NextLink(s, from)))
  {
  }

  // From any place up to it the same link is found.
  lemma NextLinkStays(s: string, from: nat, to: nat)
    requires from <= to && (NextLink(s, from) == -1 || to <= NextLink(s, from))
    ensures NextLink(s, to) == NextLink(s, from)
  {
  }

  // It is the first link there is, unless that is an insecure one with a secure one after it.
  lemma NextLinkIsFirst(s: string, from: nat)
    ensures var secure, plain := Find(s, "https://", from), Find(s, "http://", from);
      (forall i :: from <= i && (At(s, "https://", i) || At(s, "http://", i)) ==> from <= NextLink(s, from) <= i)
      <==> secure == -1 || plain == -1 || secure < plain
  {
    var secure, plain := Find(s, "https://", from), Find(s, "http://", from);
    if secure != -1 && plain != -1 {
      OneScheme(s, secure);
      assert plain < secure ==> At(s, "http://", plain) && NextLink(s, from) > plain;
    }
  }

  lemma OneScheme(s: string, i: nat)
    requires At(s, "https://", i)
    ensures !At(s, "http://", i)
  {
    assert s[i + 4] == s[i..i + 8][4] == 's';
  }

  lemma SecureLetters(s: string, i: nat)
    requires At(s, "https://", i)
    ensures s[i] == 'h' && s[i + 4] == 's'
  {
    assert s[i] == s[i..i + 8][0] && s[i + 4] == s[i..i + 8][4];
  }

  // As here, where the link at the start is passed over.
  lemma PlainLinkPassedOver()
    ensures At("http://a https://b", "http://", 0) && NextLink("http://a https://b", 0) == 9
  {
    hide Find, At;
    var s := "http://a https://b";
    SecondLink(s);
    var secure := Find(s, "https://", 0);
    SecureLetters(s, secure);
  }

  lemma SecondLink(s: string)
    requires s == "http://a https://b"
    ensures At(s, "http://", 0) && At(s, "https://", 9)
  {
  }

  predicate EndsLink(c: char, isSpace: char -> bool) {
    isSpace(c) || c == '\'' || c == '"' || c == ';'
  }

  // A link of n characters at i: up to whitespace, a quote or a semicolon, without a comma or stop at its end.
  predicate LinkAt(text: string, i: nat, n: nat, isSpace: char -> bool) {
    && (At(text, "https://", i) || At(text, "http://", i)) && 6 <= n <= |text| - i
    && (forall q :: i + 6 <= q < i + n ==> !isSpace(text[q]) && text[q] !in ['\'', '"', ';'])
    && (LinkOver(text, i + n, isSpace) || (text[i + n] in [',', '.'] && LinkOver(text, i + n + 1, isSpace)))
    && (LinkOver(text, i + n, isSpace) ==> text[i + n - 1] !in [',', '.'])
  }

  predicate LinkOver(text: string, p: nat, isSpace: char -> bool)
    requires p <= |text|
  {
    p == |text| || isSpace(text[p]) || text[p] in ['\'', '"', ';']
  }

  // Place p is inside a link, or right behind it.
  ghost predicate InLink(text: string, p: int, isSpace: char -> bool) {
    exists i: nat, n: nat :: LinkAt(text, i, n, isSpace) && i < p <= i + n
  }

  ghost predicate BehindLink(text: string, p: int, isSpace: char -> bool) {
    exists i: nat, n: nat :: LinkAt(text, i, n, isSpace) && p == i + n
  }

  // No whitespace behind the first character.
  ghost predicate Unbroken(text: string, from: int, to: int, isSpace: char -> bool)
    requires 0 <= from <= to <= |text|
  {
    forall k :: from < k < to ==> !isSpace(text[k])
  }

  // A stretch of words ends with the text, with a whitespace, or has no place to break.
  ghost predicate WordsEnd(text: string, from: int, to: int, isSpace: char -> bool)
    requires 0 <= from <= to <= |text|
  {
    to == |text| || (from < to && isSpace(text[to - 1])) || Unbroken(text, from, to, isSpace)
  }

  method LinkLength(text: string, inPos: nat, isSpace: char -> bool) returns (n: nat)
    requires At(text, "https://", inPos) || At(text, "http://", inPos)
    ensures LinkAt(text, inPos, n, isSpace)
  {
    n := 6;
    LinkStart(text, inPos);
    while n < |text| - inPos && !EndsLink(text[inPos + n], isSpace)
      invariant 6 <= n <= |text| - inPos
      invariant forall q :: inPos + 6 <= q < inPos + n ==> !EndsLink(text[q], isSpace)
    {
      n := n + 1;
    }
    if text[inPos + n - 1] in ",." {
      n := n - 1;
    }
  }

  lemma LinkStart(text: string, i: nat)
    requires At(text, "https://", i) || At(text, "http://", i)
    ensures i + 7 <= |text| && text[i + 5] !in ",." && "http" <= text[i..]
  {
    assert At(text, "https://", i) ==> text[i + 5] == text[i..i + 8][5];
    assert At(text, "http://", i) ==> text[i + 5] == text[i..i + 7][5];
    assert At(text, "https://", i) ==> text[i..][..4] == text[i..i + 8][..4] == "http";
    assert At(text, "http://", i) ==> text[i..][..4] == text[i..i + 7][..4] == "http";
  }

  // Up to room characters, and the last whitespace among them that is not the first character.
  method ScanWords(text: string, inPos: nat, room: nat, isSpace: char -> bool) returns (n: nat, spacePos: nat)
    requires inPos <= |text|
    ensures n == if |text| - inPos < room then |text| - inPos else room
    ensures spacePos > 0 ==> spacePos < n && isSpace(text[inPos + spacePos])
    ensures forall q :: inPos + spacePos < q < inPos + n ==> !isSpace(text[q])
  {
    n, spacePos := 0, 0;
    while n < |text| - inPos && n < room
      invariant n <= |text| - inPos && n <= room && spacePos <= n
        && (spacePos > 0 ==> spacePos < n && isSpace(text[inPos + spacePos]))
      invariant forall q :: inPos + spacePos < q < inPos + n ==> !isSpace(text[q])
    {
      if isSpace(text[inPos + n]) {
        spacePos := n;
      }
      n := n + 1;
    }
  }

  // The fragments made of text from inPos for a line with room characters left: the last one ends
  // the line, where it may be ended; the ones before it leave room.
  ghost predicate Produced(text: string, inPos: nat, frags: seq<Fragment>, end: nat, room: nat, isSpace: char -> bool) {
    && inPos <= end <= |text| && Spell(frags) == text[inPos..end]
    && frags != [] && frags[|frags| - 1].column == INT_MAX
    && Unforced(frags[..|frags| - 1], room)
    && MayForce(text, end, end - inPos, room, isSpace)
  }

  ghost predicate Unforced(frags: seq<Fragment>, room: nat) {
    (forall j :: 0 <= j < |frags| ==> frags[j].column != INT_MAX) && |Spell(frags)| < room
  }

  // What a fragment has as its link is a link of the text, and the fragment is a part of it.
  ghost predicate LinkPiece(text: string, f: Fragment, clickable: bool, isSpace: char -> bool) {
    f.weblink != "" ==> clickable && exists i: nat, n: nat, k: nat ::
      i + n <= |text| && LinkAt(text, i, n, isSpace) && f.weblink == text[i..i + n] && At(f.weblink, f.text, k)
  }

  ghost predicate LinksKept(text: string, frags: seq<Fragment>, clickable: bool, isSpace: char -> bool) {
    forall f :: f in frags ==> LinkPiece(text, f, clickable, isSpace)
  }

  ghost predicate LineLinks(text: string, lines: seq<FormattedLine>, clickable: bool, isSpace: char -> bool) {
    forall l :: l in lines ==> LinksKept(text, l.fragments, clickable, isSpace)
  }

  ghost predicate Linked(text: string, l: Layout, clickable: bool, isSpace: char -> bool) {
    && LineLinks(text, l.lines, clickable, isSpace)
    && LinksKept(text, l.current.fragments, clickable, isSpace) && LinksKept(text, l.waiting, clickable, isSpace)
  }

  lemma PartOfPart(s: string, a: nat, b: nat, c: nat, d: nat)
    requires a <= b <= |s| && c <= d <= b - a
    ensures s[a..b][c..d] == s[a + c..a + d]
  {
    var part := s[a..b][c..d];
    assert forall i :: 0 <= i < d - c ==> part[i] == s[a..b][c + i];
    assert part == s[a + c..a + d];
  }

  // A part of a part is a part.
  lemma PieceOfPiece(text: string, f: Fragment, g: Fragment, k: nat, clickable: bool, isSpace: char -> bool)
    requires LinkPiece(text, f, clickable, isSpace) && g.weblink == f.weblink && At(f.text, g.text, k)
    ensures LinkPiece(text, g, clickable, isSpace)
  {
    hide LinkAt;
    if f.weblink != "" {
      var i: nat, n: nat, j: nat :|
        i + n <= |text| && LinkAt(text, i, n, isSpace) && f.weblink == text[i..i + n] && At(f.weblink, f.text, j);
      PartOfPart(f.weblink, j, j + |f.text|, k, k + |g.text|);
      assert At(f.weblink, g.text, j + k);
    }
  }

  lemma LayOneLinked(text: string, l: Layout, cols: nat, hanging: nat, clickable: bool, isSpace: char -> bool)
    requires Linked(text, l, clickable, isSpace) && l.waiting != [] && l.column < cols
    ensures Linked(text, LayOne(l, cols, hanging), clickable, isSpace)
  {
    hide LinkPiece;
    var frag, room := l.waiting[0], cols - l.column;
    assert frag.text[..|frag.text|] == frag.text;
    PieceOfPiece(text, frag, frag.(column := l.column), 0, clickable, isSpace);
    if |frag.text| > room {
      var placed := Fragment(frag.text[..room], l.column, frag.weblink);
      var left := frag.(text := frag.text[room..], column := 0);
      assert At(frag.text, left.text, room);
      PieceOfPiece(text, frag, placed, 0, clickable, isSpace);
      PieceOfPiece(text, frag, left, room, clickable, isSpace);
    }
  }

  // One round of the loop that makes fragments: how long the next one is, whether it ends the
  // line, and whether it is a link.
  method NextFragment(text: string, end: nat, remaining: nat, clickable: bool, isSpace: char -> bool)
    returns (fragLength: nat, markNewline: bool, isLink: bool)
    requires end <= |text| && remaining > 0
    ensures fragLength <= |text| - end && (end < |text| ==> fragLength > 0)
    ensures !markNewline ==> 0 < fragLength < remaining
    ensures markNewline ==> MayForce(text, end + fragLength, fragLength, remaining, isSpace)
    ensures isLink <==> clickable && NextLink(text, end) == end
    ensures isLink ==> LinkAt(text, end, fragLength, isSpace)
    ensures !isLink && markNewline ==> fragLength <= remaining && WordsEnd(text, end, end + fragLength, isSpace)
    ensures !isLink && !markNewline ==> NextLink(text, end) == end + fragLength
    ensures clickable && !isLink ==> NextLink(text, end) == -1 || end + fragLength <= NextLink(text, end)
    ensures !clickable ==> markNewline
  {
    NextLinkFound(text, end);
    var http := if clickable && NextLink(text, end) != -1 then NextLink(text, end) - end else -1;
    var spacePos;
    markNewline, isLink := false, http == 0;
    fragLength, spacePos := ScanWords(text, end, remaining, isSpace);
    if http == -1 || http >= remaining {
      markNewline := true;
    } else if http == 0 {
      fragLength := LinkLength(text, end, isSpace);
      spacePos := fragLength - 1;
      if fragLength >= remaining {
        markNewline := true;
      }
    } else {
      spacePos := http - 1;
      fragLength := http;
    }
    if spacePos != 0 && fragLength < |text| - end {
      fragLength := spacePos + 1;
    }
  }

  // The last fragment is a link, or words from the beginning or from behind a link on.
  ghost predicate LastWords(text: string, inPos: nat, frags: seq<Fragment>, end: nat, room: nat, clickable: bool,
                            isSpace: char -> bool)
  {
    && frags != [] && inPos <= end - |frags[|frags| - 1].text| <= end <= |text|
    && var q := end - |frags[|frags| - 1].text|;
      || (clickable && LinkAt(text, q, end - q, isSpace))
      || (end - inPos <= room && WordsEnd(text, q, end, isSpace) && (q < end || end == |text|)
          && (q == inPos || (clickable && BehindLink(text, q, isSpace))))
  }

  // Where another fragment may start.
  ghost predicate Starts(text: string, inPos: nat, end: nat, clickable: bool, isSpace: char -> bool) {
    end == inPos || (clickable && (BehindLink(text, end, isSpace) || NextLink(text, end) == end))
  }

  lemma StartsHere(text: string, inPos: nat, clickable: bool, given: set<string>, isSpace: char -> bool)
    ensures Starts(text, inPos, inPos, clickable, isSpace) && given + LinksOf([]) == given
  {
  }

  lemma NextStarts(text: string, inPos: nat, end: nat, n: nat, clickable: bool, isLink: bool, isSpace: char -> bool)
    requires end + n <= |text| && clickable && (isLink ==> LinkAt(text, end, n, isSpace))
    requires !isLink ==> NextLink(text, end) == end + n
    ensures Starts(text, inPos, end + n, clickable, isSpace)
  {
    hide LinkAt, NextLink;
    if !isLink {
      NextLinkStays(text, end, end + n);
    }
  }

  lemma LastOne(text: string, inPos: nat, frags: seq<Fragment>, frag: Fragment, end: nat, room: nat,
                clickable: bool, isLink: bool, isSpace: char -> bool)
    requires inPos <= end && end + |frag.text| <= |text| && Starts(text, inPos, end, clickable, isSpace)
    requires isLink <==> clickable && NextLink(text, end) == end
    requires isLink ==> LinkAt(text, end, |frag.text|, isSpace)
    requires !isLink ==>
      |frag.text| <= room - (end - inPos) && WordsEnd(text, end, end + |frag.text|, isSpace)
    requires frag.text != "" || end == |text|
    ensures LastWords(text, inPos, frags + [frag], end + |frag.text|, room, clickable, isSpace)
  {
    hide LinkAt, NextLink, WordsEnd, BehindLink;
  }

  // ---- all links

  ghost function LinksOf(frags: seq<Fragment>): set<string> {
    set f | f in frags :: f.weblink
  }

  // The links between the two places, found one behind the other, are all given.
  ghost predicate AllGiven(text: string, from: nat, to: nat, given: set<string>, isSpace: char -> bool)
    decreases |text| - from
  {
    && from <= to <= |text|
    && var i := NextLink(text, from);
      || i == -1 || to <= i
      || exists n: nat ::
        && LinkAt(text, i, n, isSpace) && 0 < n && from <= i && i + n <= to && text[i..i + n] in given
        && AllGiven(text, i + n, to, given, isSpace)
  }

  lemma {:induction false} GivenWords(text: string, from: nat, to: nat, n: nat, given: set<string>,
                                      isSpace: char -> bool)
    requires AllGiven(text, from, to, given, isSpace) && to + n <= |text|
    requires NextLink(text, to) == -1 || to + n <= NextLink(text, to)
    ensures AllGiven(text, from, to + n, given, isSpace)
    decreases |text| - from
  {
    hide LinkAt, NextLink;
    NextLinkFound(text, from);
    var i := NextLink(text, from);
    if i == -1 || to <= i {
      NextLinkStays(text, from, to);
    } else {
      var m: nat :| LinkAt(text, i, m, isSpace) && 0 < m && from <= i && i + m <= to && text[i..i + m] in given
        && AllGiven(text, i + m, to, given, isSpace);
      GivenWords(text, i + m, to, n, given, isSpace);
    }
  }

  lemma LinkLong(text: string, i: nat, n: nat, isSpace: char -> bool)
    requires LinkAt(text, i, n, isSpace)
    ensures n >= 6 && i + n <= |text|
  {
  }

  lemma GivenNothing(text: string, from: nat, given: set<string>, isSpace: char -> bool)
    requires from <= |text|
    ensures AllGiven(text, from, from, given, isSpace)
  {
    hide NextLink;
    NextLinkFound(text, from);
  }

  lemma {:induction false} GivenLink(text: string, from: nat, to: nat, n: nat, given: set<string>,
                                     isSpace: char -> bool)
    requires AllGiven(text, from, to, given, isSpace) && LinkAt(text, to, n, isSpace) && NextLink(text, to) == to
    requires to + n <= |text| && text[to..to + n] in given
    ensures AllGiven(text, from, to + n, given, isSpace)
    decreases |text| - from
  {
    hide NextLink, LinkAt;
    NextLinkFound(text, from);
    LinkLong(text, to, n, isSpace);
    var i := NextLink(text, from);
    if i == -1 || to <= i {
      NextLinkStays(text, from, to);
      GivenNothing(text, to + n, given, isSpace);
    } else {
      var m: nat :| LinkAt(text, i, m, isSpace) && 0 < m && from <= i && i + m <= to && text[i..i + m] in given
        && AllGiven(text, i + m, to, given, isSpace);
      GivenLink(text, i + m, to, n, given, isSpace);
    }
  }

  lemma {:induction false} GivenMore(text: string, from: nat, to: nat, given: set<string>, more: set<string>,
                                     isSpace: char -> bool)
    requires AllGiven(text, from, to, given, isSpace) && given <= more
    ensures AllGiven(text, from, to, more, isSpace)
    decreases |text| - from
  {
    hide LinkAt, NextLink;
    var i := NextLink(text, from);
    if i != -1 && i < to {
      var m: nat :| LinkAt(text, i, m, isSpace) && 0 < m && from <= i && i + m <= to && text[i..i + m] in given
        && AllGiven(text, i + m, to, given, isSpace);
      GivenMore(text, i + m, to, given, more, isSpace);
    }
  }

  lemma GivenOne(text: string, frags: seq<Fragment>, frag: Fragment, end: nat, given: set<string>,
                 clickable: bool, isLink: bool, isSpace: char -> bool)
    requires clickable && end + |frag.text| <= |text| && frag.text == text[end..end + |frag.text|]
    requires AllGiven(text, 0, end, given + LinksOf(frags), isSpace)
    requires isLink ==>
      NextLink(text, end) == end && LinkAt(text, end, |frag.text|, isSpace) && frag.weblink == frag.text
    requires !isLink ==> NextLink(text, end) == -1 || end + |frag.text| <= NextLink(text, end)
    ensures AllGiven(text, 0, end + |frag.text|, given + LinksOf(frags + [frag]), isSpace)
  {
    hide LinkAt, NextLink, AllGiven;
    var more := given + LinksOf(frags + [frag]);
    assert frag in frags + [frag] && frag.weblink in LinksOf(frags + [frag]);
    assert LinksOf(frags) <= LinksOf(frags + [frag]);
    GivenMore(text, 0, end, given + LinksOf(frags), more, isSpace);
    if isLink {
      GivenLink(text, 0, end, |frag.text|, more, isSpace);
    } else {
      GivenWords(text, 0, end, |frag.text|, more, isSpace);
    }
  }

  method ProduceFragments(text: string, inPos: nat, room: nat, clickable: bool, isSpace: char -> bool,
                          ghost given: set<string>)
    returns (frags: seq<Fragment>, end: nat)
    requires inPos < |text| && room > 0
    requires clickable ==> AllGiven(text, 0, inPos, given, isSpace)
    ensures Produced(text, inPos, frags, end, room, isSpace) && inPos < end
    ensures LinksKept(text, frags, clickable, isSpace)
    ensures LastWords(text, inPos, frags, end, room, clickable, isSpace)
    ensures clickable ==> AllGiven(text, 0, end, given + LinksOf(frags), isSpace)
  {
    hide LinksKept, LinkAt, Produced, Unforced, MayForce, Starts, LastWords, WordsEnd, AllGiven, NextLink;
    frags, end := [], inPos;
    var remaining, markNewline := room, false;
    ProducedNothing(text, inPos, room, clickable, isSpace);
    StartsHere(text, inPos, clickable, given, isSpace);
    while !markNewline
      invariant inPos <= end <= |text| && (end == inPos ==> frags == [] && !markNewline)
      invariant !markNewline ==>
        remaining == room - (end - inPos) > 0 && Unforced(frags, room) && Spell(frags) == text[inPos..end]
      invariant markNewline ==> Produced(text, inPos, frags, end, room, isSpace)
      invariant LinksKept(text, frags, clickable, isSpace)
      invariant if markNewline then LastWords(text, inPos, frags, end, room, clickable, isSpace)
                else Starts(text, inPos, end, clickable, isSpace)
      invariant clickable ==> AllGiven(text, 0, end, given + LinksOf(frags), isSpace)
      decreases !markNewline, |text| - end
    {
      var fragLength, isLink;
      fragLength, markNewline, isLink := NextFragment(text, end, remaining, clickable, isSpace);
      var piece := text[end..end + fragLength];
      var frag := Fragment(piece, if markNewline then INT_MAX else 0, if isLink then piece else "");
      ProducedOne(text, inPos, frags, end, room, clickable, isSpace, frag, markNewline);
      if markNewline {
        LastOne(text, inPos, frags, frag, end, room, clickable, isLink, isSpace);
      } else {
        NextStarts(text, inPos, end, fragLength, clickable, isLink, isSpace);
      }
      if clickable {
        GivenOne(text, frags, frag, end, given, clickable, isLink, isSpace);
      }
      frags := frags + [frag];
      end := end + fragLength;
      remaining := remaining - if fragLength < remaining then fragLength else remaining;
    }
  }

  lemma ProducedNothing(text: string, inPos: nat, room: nat, clickable: bool, isSpace: char -> bool)
    requires inPos <= |text| && room > 0
    ensures Unforced([], room) && Spell([]) == text[inPos..inPos] && LinksKept(text, [], clickable, isSpace)
  {
    assert text[inPos..inPos] == "";
  }

  lemma ProducedOne(text: string, inPos: nat, frags: seq<Fragment>, end: nat, room: nat, clickable: bool,
                    isSpace: char -> bool,
                    frag: Fragment, markNewline: bool)
    requires inPos <= end && end + |frag.text| <= |text| && frag.text == text[end..end + |frag.text|]
    requires Unforced(frags, room) && Spell(frags) == text[inPos..end] && LinksKept(text, frags, clickable, isSpace)
    requires frag.column == if markNewline then INT_MAX else 0
    requires !markNewline ==> |frag.text| < room - (end - inPos)
    requires markNewline ==> MayForce(text, end + |frag.text|, |frag.text|, room - (end - inPos), isSpace)
    requires frag.weblink == ""
      || (clickable && frag.weblink == frag.text && LinkAt(text, end, |frag.text|, isSpace))
    ensures LinksKept(text, frags + [frag], clickable, isSpace)
    ensures Spell(frags + [frag]) == text[inPos..end + |frag.text|]
    ensures !markNewline ==> Unforced(frags + [frag], room)
    ensures markNewline ==> Produced(text, inPos, frags + [frag], end + |frag.text|, room, isSpace)
  {
    hide LinkAt, LinkPiece, Spell;
    OneLinked(text, end, clickable, isSpace, frag);
    SpellSnoc(frags, frag);
    Stretch(text, inPos, end, end + |frag.text|);
    assert (frags + [frag])[..|frags|] == frags;
  }

  lemma OneLinked(text: string, end: nat, clickable: bool, isSpace: char -> bool, frag: Fragment)
    requires end + |frag.text| <= |text| && frag.text == text[end..end + |frag.text|]
    requires frag.weblink == ""
      || (clickable && frag.weblink == frag.text && LinkAt(text, end, |frag.text|, isSpace))
    ensures LinkPiece(text, frag, clickable, isSpace)
  {
    hide LinkAt;
    assert frag.weblink != "" ==> At(frag.weblink, frag.text, 0);
  }

  lemma Stretch(text: string, a: nat, b: nat, c: nat)
    requires a <= b <= c <= |text|
    ensures text[a..b] + text[b..c] == text[a..c]
  {
  }
}

// The buffer of the console.
module Chat {
  import opened ChatText
  import opened ChatLayout
  import opened ChatWords

  datatype ChatLine = ChatLine(age: real, name: string, text: string)

  // What precedes the text of a message.
  function Prefix(name: string): string {
    if name == "" then "" else "<" + name + "> "
  }

  function Hanging(name: string, cols: nat): nat {
    if name == "" then 0 else if |name| + 3 <= cols / 2 then |name| + 3 else 2
  }

  // Where the further lines of a message begin: behind its name if that takes no more than half the
  // width, else in the third column; without a name in the first.
  lemma HangingMeans(name: string, cols: nat)
    ensures name == "" ==> Hanging(name, cols) == 0
    ensures name != "" && 2 * |"<" + name + "> "| <= cols ==> Hanging(name, cols) == |"<" + name + "> "|
    ensures name != "" && 2 * |"<" + name + "> "| > cols ==> Hanging(name, cols) == 2
  {
  }

  // Only a very narrow console shows nothing of a message.
  lemma NothingFits(name: string, cols: nat)
    ensures Hanging(name, cols) >= cols <==> cols == 0 || (name != "" && cols <= 2)
  {
  }

  function MessageOf(line: ChatLine, clickable: bool, isSpace: char -> bool): Message {
    Message(line.text, |Prefix(line.name)|, clickable, isSpace)
  }

  // The lines of one message: none if the console is too narrow. Else they spell it, break where words
  // end, and have its links.
  ghost predicate Formatted(line: ChatLine, cols: nat, lines: seq<FormattedLine>, clickable: bool,
                            isSpace: char -> bool)
  {
    if Hanging(line.name, cols) >= cols then lines == []
    else
      && Formats(Prefix(line.name) + line.text, lines, cols, Hanging(line.name, cols), isSpace)
      && Worded(MessageOf(line, clickable, isSpace), lines) && LineLinks(line.text, lines, clickable, isSpace)
  }

  method PrefixFragments(name: string) returns (frags: seq<Fragment>)
    ensures Spell(frags) == Prefix(name) && forall f :: f in frags ==> f.column == 0 && f.weblink == ""
  {
    frags := [];
    if name != "" {
      frags := [Fragment("<", 0, ""), Fragment(name, 0, ""), Fragment("> ", 0, "")];
      assert frags[1..] == [Fragment(name, 0, ""), Fragment("> ", 0, "")] && frags[1..][1..] == [Fragment("> ", 0, "")];
      SpellOne(Fragment("> ", 0, ""));
      assert "<" + (name + "> ") == "<" + name + "> ";
    }
  }

  // The inner loop: lays out all waiting fragments.
  method LayOut(l0: Layout, cols: nat, hanging: nat, ghost s: string, ghost m: Message, ghost inPos: nat)
    returns (l: Layout)
    requires inPos <= |m.text| && Laying(s, l0, m.text[inPos..], cols, hanging, m.isSpace)
    requires Linked(m.text, l0, m.clickable, m.isSpace) && LaidSoFar(m, l0, cols, inPos)
    ensures Laying(s, l, m.text[inPos..], cols, hanging, m.isSpace) && l.waiting == []
    ensures Linked(m.text, l, m.clickable, m.isSpace) && LaidSoFar(m, l, cols, inPos)
  {
    hide Laying, Linked, Spell, LaidSoFar;
    l := l0;
    ghost var rest := m.text[inPos..];
    while l.waiting != []
      invariant Laying(s, l, rest, cols, hanging, m.isSpace)
      invariant Linked(m.text, l, m.clickable, m.isSpace) && LaidSoFar(m, l, cols, inPos)
      decreases |Spell(l.waiting)| + |l.waiting|
    {
      Unfold(s, l, rest, cols, hanging, m.isSpace);
      LayOneKeeps(s, l, rest, cols, hanging, m.isSpace);
      LayOneLinked(m.text, l, cols, hanging, m.clickable, m.isSpace);
      LaidOne(m, l, cols, hanging, inPos);
      l := LayOutFirst(l, cols, hanging);
    }
  }

  method LayOutFirst(l: Layout, cols: nat, hanging: nat) returns (next: Layout)
    requires l.waiting != [] && l.column < cols
    ensures next == LayOne(l, cols, hanging)
  {
    var lines, current, column: nat, waiting := l.lines, l.current, l.column, l.waiting;
    var frag := waiting[0];
    var markNewline := frag.column == INT_MAX;
    if |frag.text| <= cols - column {
      frag := frag.(column := column);
      current := current.(fragments := current.fragments + [frag]);
      column := column + |frag.text|;
      waiting := waiting[1..];
    } else {
      var piece := Fragment(frag.text[..cols - column], column, frag.weblink);
      current := current.(fragments := current.fragments + [piece]);
      frag := frag.(text := frag.text[cols - column..], column := 0);
      waiting := [frag] + waiting[1..];
      column := cols;
    }
    if column == cols || markNewline {
      lines := lines + [current];
      current := FormattedLine([], false);
      column := hanging;
    }
    next := Layout(lines, current, column, waiting);
  }

  // With all fragments laid out, those made of more of the text can wait.
  lemma NowWaiting(s: string, l: Layout, prefix: string, text: string, inPos: nat, frags: seq<Fragment>, end: nat,
                   cols: nat, hanging: nat,
                   isSpace: char -> bool)
    requires s == prefix + text && inPos < |text| && l.waiting == [] && l.column < cols
    requires Laying(s, l, text[inPos..], cols, hanging, isSpace)
    requires Produced(text, inPos, frags, end, cols - l.column, isSpace)
    ensures Laying(s, l.(waiting := frags), text[end..], cols, hanging, isSpace)
  {
    hide Wrapped, Laid, SpellLines, Spell;
    var p := |SpellLines(l.lines)| + |Spell(l.current.fragments)|;
    assert text[inPos..] == text[inPos..end] + text[end..];
    NothingCurrent(0);
    var before := SpellLines(l.lines) + Spell(l.current.fragments);
    assert s == before + [] + text[inPos..] == before + text[inPos..end] + text[end..];
    assert p == |prefix| + inPos;
    ForceShift(prefix, text, end, end - inPos, cols - l.column, l.column, isSpace);
  }

  lemma ForceShift(prefix: string, text: string, p: nat, e: nat, room: nat, column: nat, isSpace: char -> bool)
    requires MayForce(text, p, e, room, isSpace)
    ensures MayForce(prefix + text, |prefix| + p, column + e, column + room, isSpace)
  {
    var s := prefix + text;
    if e < room && p != |text| {
      assert s[|prefix| + p - 1] == text[p - 1];
      assert forall q :: |prefix| + p <= q < |prefix| + p + (room - e) ==> s[q] == text[q - |prefix|];
    }
  }

  lemma FormatStarts(line: ChatLine, frags: seq<Fragment>, cols: nat, isSpace: char -> bool)
    requires Spell(frags) == Prefix(line.name) && (forall f :: f in frags ==> f.column == 0)
    requires Hanging(line.name, cols) < cols
    ensures Laying(Prefix(line.name) + line.text, Layout([], FormattedLine([], true), 0, frags), line.text, cols,
      Hanging(line.name, cols), isSpace)
  {
    hide Prefix, Hanging;
    assert "" + "" + Prefix(line.name) + line.text == Prefix(line.name) + line.text;
  }

  lemma FormatEnds(s: string, l: Layout, cols: nat, hanging: nat, isSpace: char -> bool)
    requires Laying(s, l, "", cols, hanging, isSpace) && l.waiting == []
    ensures var lines := if l.lines == [] || l.current.fragments != [] then l.lines + [l.current] else l.lines;
      Formats(s, lines, cols, hanging, isSpace)
  {
    hide MayBreak, Laid, Spell;
    NothingCurrent(0);
    if l.lines == [] || l.current.fragments != [] {
      WrappedSnoc(s, l.lines, l.current, l.column, cols, hanging, isSpace, false);
      SpellLinesSnoc(l.lines, l.current);
      assert s == SpellLines(l.lines) + Spell(l.current.fragments) + [] + [];
    } else {
      assert s == SpellLines(l.lines) + [] + [] + [];
    }
  }

  // ChatBuffer::formatChatLine appends the lines of one message.
  method FormatChatLine(line: ChatLine, cols: nat, destination: seq<FormattedLine>, clickable: bool,
                        isSpace: char -> bool)
    returns (numAdded: nat, result: seq<FormattedLine>)
    ensures numAdded <= |result| && result[..|result| - numAdded] == destination
    ensures Formatted(line, cols, result[|result| - numAdded..], clickable, isSpace)
  {
    hide Laying, Linked, Produced, Hanging, Formats, LineLinks, LinksKept, LaidSoFar, Worded, LastWords, AllGiven;
    var frags := PrefixFragments(line.name);
    var hanging := Hanging(line.name, cols);
    if hanging >= cols {
      assert destination[..|destination|] == destination && destination[|destination|..] == [];
      return 0, destination;
    }
    ghost var s, m := Prefix(line.name) + line.text, MessageOf(line, clickable, isSpace);
    var l, inPos: nat := Layout([], FormattedLine([], true), 0, frags), 0;
    FormatStarts(line, frags, cols, isSpace);
    NoLinks(line.text, frags, clickable, isSpace);
    LaidStarts(m, frags, cols);
    assert line.text[0..] == line.text;
    while l.waiting != [] || inPos < |line.text|
      invariant inPos <= |line.text| && Laying(s, l, line.text[inPos..], cols, hanging, isSpace)
      invariant Linked(line.text, l, clickable, isSpace) && LaidSoFar(m, l, cols, inPos)
      decreases |line.text| - inPos, |l.waiting|
    {
      l := LayOut(l, cols, hanging, s, m, inPos);
      if inPos < |line.text| {
        WhereItIs(s, l, m, inPos, Prefix(line.name), cols, hanging);
        var end;
        frags, end := ProduceFragments(line.text, inPos, cols - l.column, clickable, isSpace, Shown(l));
        NowWaiting(s, l, Prefix(line.name), line.text, inPos, frags, end, cols, hanging, isSpace);
        NowLinked(line.text, l, frags, clickable, isSpace);
        LaidMore(m, l, inPos, frags, end, cols);
        l := l.(waiting := frags);
        ProducedEnd(line.text, inPos, frags, end, cols - l.column, isSpace);
        inPos := end;
      }
    }
    assert line.text[inPos..] == "";
    FormatEnds(s, l, cols, hanging, isSpace);
    LinkedEnds(line.text, l, clickable, isSpace);
    LaidEnds(m, l, cols);
    var lines := if l.lines == [] || l.current.fragments != [] then l.lines + [l.current] else l.lines;
    numAdded, result := |lines|, destination + lines;
  }

  // With nothing waiting the next fragment comes right behind what is laid out.
  lemma WhereItIs(s: string, l: Layout, m: Message, inPos: nat, prefix: string, cols: nat, hanging: nat)
    requires inPos <= |m.text| && s == prefix + m.text && m.prefix == |prefix| && l.waiting == []
    requires Laying(s, l, m.text[inPos..], cols, hanging, m.isSpace) && LaidSoFar(m, l, cols, inPos)
    ensures l.column < cols && Placed(l) == m.prefix + inPos
    ensures m.clickable ==> AllGiven(m.text, 0, inPos, Shown(l), m.isSpace)
  {
    hide Wrapped, Waiting, ChatText.Laid, WordLines, Ready, AllGiven;
    NothingCurrent(0);
  }

  lemma NoLinks(text: string, frags: seq<Fragment>, clickable: bool, isSpace: char -> bool)
    requires forall f :: f in frags ==> f.weblink == ""
    ensures Linked(text, Layout([], FormattedLine([], true), 0, frags), clickable, isSpace)
    ensures LineLinks(text, [], clickable, isSpace)
  {
  }

  lemma NowLinked(text: string, l: Layout, frags: seq<Fragment>, clickable: bool, isSpace: char -> bool)
    requires Linked(text, l, clickable, isSpace) && LinksKept(text, frags, clickable, isSpace)
    ensures Linked(text, l.(waiting := frags), clickable, isSpace)
  {
  }

  lemma LinkedEnds(text: string, l: Layout, clickable: bool, isSpace: char -> bool)
    requires Linked(text, l, clickable, isSpace)
    ensures LineLinks(text, l.lines, clickable, isSpace) && LineLinks(text, l.lines + [l.current], clickable, isSpace)
  {
  }

  lemma ProducedEnd(text: string, inPos: nat, frags: seq<Fragment>, end: nat, room: nat, isSpace: char -> bool)
    requires Produced(text, inPos, frags, end, room, isSpace)
    ensures end <= |text|
  {
  }

  // ---- groups of lines, one for each message

  function Flatten(groups: seq<seq<FormattedLine>>): seq<FormattedLine> {
    if groups == [] then [] else groups[0] + Flatten(groups[1..])
  }

  lemma {:induction false} FlattenConcat(a: seq<seq<FormattedLine>>, b: seq<seq<FormattedLine>>)
    ensures Flatten(a + b) == Flatten(a) + Flatten(b)
  {
    if a == [] {
      assert a + b == b;
    } else {
      assert (a + b)[1..] == a[1..] + b;
      FlattenConcat(a[1..], b);
    }
  }

  lemma FlattenOne(g: seq<FormattedLine>)
    ensures Flatten([g]) == g
  {
    assert Flatten([g][1..]) == [];
  }

  // Its first line is marked, and no other.
  predicate IsGroup(g: seq<FormattedLine>) {
    g != [] ==> g[0].first && forall i :: 0 < i < |g| ==> !g[i].first
  }

  lemma FormattedIsGroup(line: ChatLine, cols: nat, g: seq<FormattedLine>, clickable: bool, isSpace: char -> bool)
    requires Formatted(line, cols, g, clickable, isSpace)
    ensures IsGroup(g) && (g == [] <==> Hanging(line.name, cols) >= cols)
  {
    if g != [] {
      forall i | 0 <= i < |g|
        ensures g[i].first == (i == 0)
      {
        FormattedLines(Prefix(line.name) + line.text, g, cols, Hanging(line.name, cols), isSpace, i);
      }
    }
  }

  // The lines deleteOldest takes for one message: a line and those after it that are not marked.
  function Unmarked(lines: seq<FormattedLine>): nat {
    if lines == [] || lines[0].first then 0 else 1 + Unmarked(lines[1..])
  }

  function LinesOfOne(lines: seq<FormattedLine>): nat {
    if lines == [] then 0 else 1 + Unmarked(lines[1..])
  }

  lemma {:induction false} UnmarkedConcat(a: seq<FormattedLine>, b: seq<FormattedLine>)
    requires forall i :: 0 <= i < |a| ==> !a[i].first
    requires b != [] ==> b[0].first
    ensures Unmarked(a + b) == |a|
  {
    if a == [] {
      assert a + b == b;
    } else {
      assert (a + b)[1..] == a[1..] + b;
      UnmarkedConcat(a[1..], b);
    }
  }

  lemma {:induction false} FlattenStarts(groups: seq<seq<FormattedLine>>)
    requires forall i :: 0 <= i < |groups| ==> IsGroup(groups[i])
    ensures Flatten(groups) != [] ==> Flatten(groups)[0].first
  {
    if groups != [] {
      FlattenStarts(groups[1..]);
    }
  }

  // They are the oldest message's lines exactly if it has any, or there are no lines at all. A
  // console too narrow for a name keeps messages without lines, and then loses another's.
  lemma LinesOfOneAreOldest(groups: seq<seq<FormattedLine>>)
    requires groups != [] && forall i :: 0 <= i < |groups| ==> IsGroup(groups[i])
    ensures LinesOfOne(Flatten(groups)) == |groups[0]| <==> groups[0] != [] || Flatten(groups) == []
  {
    var g, rest := groups[0], Flatten(groups[1..]);
    if g != [] {
      FlattenStarts(groups[1..]);
      assert (g + rest)[1..] == g[1..] + rest;
      UnmarkedConcat(g[1..], rest);
    }
  }

  // The first line, if there is one, is the first of a message.
  predicate StartsMessage(lines: seq<FormattedLine>) {
    lines != [] ==> lines[0].first
  }

  // The lines deleteOldest takes for n messages.
  function LinesOfFirst(lines: seq<FormattedLine>, n: nat): (k: nat)
    ensures k <= |lines|
  {
    if n == 0 then 0
    else
      var k := LinesOfFirst(lines, n - 1);
      LinesOfOneInside(lines[k..]);
      k + LinesOfOne(lines[k..])
  }

  lemma LinesOfOneInside(lines: seq<FormattedLine>)
    ensures LinesOfOne(lines) <= |lines| && StartsMessage(lines[LinesOfOne(lines)..])
    ensures lines == [] ==> LinesOfOne(lines) == 0
  {
    if lines != [] {
      UnmarkedInside(lines[1..]);
      assert lines[LinesOfOne(lines)..] == lines[1..][Unmarked(lines[1..])..];
    }
  }

  lemma {:induction false} UnmarkedInside(lines: seq<FormattedLine>)
    ensures Unmarked(lines) <= |lines| && StartsMessage(lines[Unmarked(lines)..])
  {
    if lines != [] && !lines[0].first {
      UnmarkedInside(lines[1..]);
      assert lines[Unmarked(lines)..] == lines[1..][Unmarked(lines[1..])..];
    }
  }

  lemma NoLinesYet(lines: seq<FormattedLine>)
    ensures LinesOfFirst(lines, 0) == 0 && lines[0..] == lines
  {
  }

  lemma LinesOfNext(lines: seq<FormattedLine>, n: nat)
    ensures var k := LinesOfFirst(lines, n);
      && LinesOfFirst(lines, n + 1) == k + LinesOfOne(lines[k..]) <= |lines|
      && StartsMessage(lines[LinesOfFirst(lines, n + 1)..])
      && (k == |lines| ==> LinesOfFirst(lines, n + 1) == k)
  {
    var k := LinesOfFirst(lines, n);
    LinesOfOneInside(lines[k..]);
    assert lines[k..][LinesOfOne(lines[k..])..] == lines[k + LinesOfOne(lines[k..])..];
  }

  function Clamp(n: int, low: int, high: int): int {
    if (if n < low then low else n) > high then high else if n < low then low else n
  }

  ghost predicate AllFormatted(lines: seq<ChatLine>, groups: seq<seq<FormattedLine>>, cols: nat,
                               clickable: bool, isSpace: char -> bool)
  {
    |groups| == |lines| && forall i :: 0 <= i < |groups| ==> Formatted(lines[i], cols, groups[i], clickable, isSpace)
  }

  // The lines are those of the messages in order.
  ghost predicate InOrder(unformatted: seq<ChatLine>, formatted: seq<FormattedLine>, groups: seq<seq<FormattedLine>>,
                          cols: nat, clickable: bool, isSpace: char -> bool)
  {
    AllFormatted(unformatted, groups, cols, clickable, isSpace) && formatted == Flatten(groups)
  }

  // With one or two columns all that is kept of that is that they start with a message's first line.
  ghost predicate Kept(unformatted: seq<ChatLine>, formatted: seq<FormattedLine>, groups: seq<seq<FormattedLine>>,
                       cols: nat, clickable: bool, isSpace: char -> bool)
  {
    StartsMessage(formatted) && (cols >= 3 ==> InOrder(unformatted, formatted, groups, cols, clickable, isSpace))
  }

  class ChatBuffer {
    const isSpace: char -> bool
    const clickable: bool
    var scrollback: nat
    var unformatted: seq<ChatLine>
    var cols: nat
    var rows: nat
    var scroll: int
    var formatted: seq<FormattedLine>
    // the lines of each message
    ghost var groups: seq<seq<FormattedLine>>

    // The formatted lines are those of the messages in order, and the scroll position is in range.
    ghost predicate Valid()
      reads this
    {
      && (rows == 0 <==> cols == 0) && (rows == 0 ==> formatted == [])
      && Kept(unformatted, formatted, groups, cols, clickable, isSpace)
      && TopScrollPos() <= scroll <= BottomScrollPos()
    }

    constructor (scrollback: nat, clickable: bool, isSpace: char -> bool)
      ensures Valid() && unformatted == [] && this.scrollback > 0
    {
      this.scrollback := if scrollback == 0 then 1 else scrollback;
      this.clickable, this.isSpace := clickable, isSpace;
      unformatted, cols, rows, scroll, formatted, groups := [], 0, 0, 0, [], [];
    }

    function TopScrollPos(): int
      reads this
    {
      if rows == 0 then 0 else if |formatted| <= rows then |formatted| - rows else 0
    }

    function BottomScrollPos(): int
      reads this
    {
      if rows == 0 then 0 else |formatted| - rows
    }

    // At the bottom the last line is in the last row, at the top the first line in the first row, unless
    // all lines fit: then they stand at the bottom.
    lemma ViewEnds()
      requires rows > 0
      ensures BottomScrollPos() + rows == |formatted|
      ensures TopScrollPos() == if rows < |formatted| then 0 else BottomScrollPos()
    {
    }

    method ScrollAbsolute(n: int)
      modifies this`scroll
      ensures scroll == Clamp(n, TopScrollPos(), BottomScrollPos())
    {
      var top, bottom := TopScrollPos(), BottomScrollPos();
      scroll := n;
      if scroll < top {
        scroll := top;
      }
      if scroll > bottom {
        scroll := bottom;
      }
    }

    // The oldest messages go, and the lines of as many messages from the top; these are their own if
    // there are at least three columns. At the bottom the view stays there, else it stays on the same
    // lines as far as they are left.
    method DeleteOldest(count: nat)
      requires Valid()
      modifies this
      ensures Valid() && rows == old(rows) && cols == old(cols) && scrollback == old(scrollback)
      ensures var n := if count < |old(unformatted)| then count else |old(unformatted)|;
        && unformatted == old(unformatted)[n..]
        && var gone := LinesOfFirst(old(formatted), n);
        && formatted == old(formatted)[gone..]
        && (cols >= 3 ==> groups == old(groups)[n..] && gone == |Flatten(old(groups)[..n])|)
        && scroll == if old(scroll == BottomScrollPos()) then BottomScrollPos()
          else Clamp(old(scroll) - gone, TopScrollPos(), BottomScrollPos())
    {
      hide AllFormatted, Flatten, LinesOfOne, LinesOfFirst, StartsMessage;
      var atBottom := scroll == BottomScrollPos();
      var delUnformatted, delFormatted := CountOldest(count);
      if cols >= 3 {
        SplitGroups(unformatted, groups, cols, clickable, isSpace, delUnformatted);
        LinesOfFirstGroups(unformatted, groups, cols, clickable, isSpace, delUnformatted);
        groups := groups[delUnformatted..];
      }
      unformatted := unformatted[delUnformatted..];
      formatted := formatted[delFormatted..];
      if atBottom {
        scroll := BottomScrollPos();
      } else {
        ScrollAbsolute(scroll - delFormatted);
      }
    }

    // How many messages and lines go.
    method CountOldest(count: nat) returns (delUnformatted: nat, delFormatted: nat)
      requires StartsMessage(formatted)
      ensures delUnformatted == if count < |unformatted| then count else |unformatted|
      ensures delFormatted == LinesOfFirst(formatted, delUnformatted) <= |formatted|
      ensures StartsMessage(formatted[delFormatted..])
    {
      hide LinesOfOne, LinesOfFirst, StartsMessage;
      var left := count;
      delUnformatted, delFormatted := 0, 0;
      NoLinesYet(formatted);
      while left > 0 && delUnformatted < |unformatted|
        invariant delUnformatted <= |unformatted| && delUnformatted + left == count
        invariant delFormatted == LinesOfFirst(formatted, delUnformatted) <= |formatted|
        invariant StartsMessage(formatted[delFormatted..])
      {
        LinesOfNext(formatted, delUnformatted);
        delUnformatted := delUnformatted + 1;
        if delFormatted < |formatted| {
          StartsMarked(formatted, delFormatted);
          assert formatted[delFormatted].first;
          delFormatted := SkipOne(delFormatted);
        }
        left := left - 1;
      }
    }

    // The index behind the lines of one message.
    method SkipOne(from: nat) returns (to: nat)
      requires from < |formatted|
      ensures to == from + LinesOfOne(formatted[from..])
    {
      to := from + 1;
      while to < |formatted| && !formatted[to].first
        invariant from < to <= |formatted|
        invariant to - from + Unmarked(formatted[to..]) == LinesOfOne(formatted[from..])
      {
        assert formatted[to..][1..] == formatted[to + 1..];
        to := to + 1;
      }
    }

    // The view is laid out anew. At the bottom it stays there; else, if the width changed, it shows
    // the first line of the message it showed the first line of, or the one after. If only the
    // height changed and it was not at the bottom, it goes to the top.
    method Reformat(cols: nat, rows: nat)
      requires Valid()
      modifies this
      ensures Valid() && unformatted == old(unformatted)
      ensures if cols == 0 || rows == 0 then this.cols == 0 && this.rows == 0
        else this.cols == cols && this.rows == rows
      ensures cols == 0 || rows == 0 ==> formatted == [] && scroll == 0
      ensures cols > 0 && rows > 0 && cols != old(this.cols) ==>
        InOrder(unformatted, formatted, groups, cols, clickable, isSpace)
      ensures cols > 0 && rows > 0 && cols == old(this.cols) ==> formatted == old(formatted) && groups == old(groups)
      ensures cols > 0 && rows > 0 && old(scroll == BottomScrollPos()) ==> scroll == BottomScrollPos()
      ensures old(scroll != BottomScrollPos()) && cols > 0 && rows > 0 && cols != old(this.cols) ==>
        var k := Marked(old(formatted), old(scroll));
        && |groups| == |unformatted|
        && scroll == Clamp(if k < |unformatted| then |Flatten(groups[..k])| else 0, TopScrollPos(), BottomScrollPos())
      ensures old(scroll != BottomScrollPos()) && cols == old(this.cols) > 0 && 0 < rows != old(this.rows) ==>
        scroll == Clamp(0, TopScrollPos(), BottomScrollPos())
      ensures cols == old(this.cols) && rows == old(this.rows) ==> scroll == old(scroll)
    {
      hide AllFormatted, Flatten, Formatted;
      if cols == 0 || rows == 0 {
        this.cols, this.rows, scroll, formatted, groups := 0, 0, 0, [], [];
        return;
      }
      if cols == this.cols && rows == this.rows {
        return;
      }
      var restoreUnformatted, restoreFormatted := 0, 0;
      var atBottom := scroll == BottomScrollPos();
      if !atBottom {
        restoreUnformatted := CountMarked(scroll);
      }
      if cols != this.cols {
        restoreFormatted := FormatAll(cols, restoreUnformatted);
      }
      this.cols, this.rows := cols, rows;
      if atBottom {
        scroll := BottomScrollPos();
      } else {
        ScrollAbsolute(restoreFormatted);
      }
    }

    method CountMarked(upto: nat) returns (n: nat)
      requires upto <= |formatted|
      ensures n == Marked(formatted, upto)
    {
      n := 0;
      var i := 0;
      while i < upto
        invariant i <= upto && n == Marked(formatted, i)
      {
        if formatted[i].first {
          n := n + 1;
        }
        i := i + 1;
      }
    }

    // All messages are formatted, and the first line of one of them is looked up.
    method FormatAll(cols: nat, k: nat) returns (start: nat)
      modifies this`formatted, this`groups
      ensures AllFormatted(unformatted, groups, cols, clickable, isSpace) && formatted == Flatten(groups)
      ensures |groups| == |unformatted| && start == if k < |groups| then |Flatten(groups[..k])| else 0
      ensures StartsMessage(formatted)
    {
      hide Formatted, Flatten, StartsMessage;
      formatted, groups, start := [], [], 0;
      FlattenStart([]);
      var i := 0;
      while i < |unformatted|
        invariant i <= |unformatted| && AllFormatted(unformatted[..i], groups, cols, clickable, isSpace)
          && formatted == Flatten(groups)
        invariant |groups| == i && start == if k < i then |Flatten(groups[..k])| else 0
      {
        if i == k {
          start := |formatted|;
        }
        ghost var was, wasGroups := formatted, groups;
        var numAdded, result := FormatChatLine(unformatted[i], cols, formatted, clickable, isSpace);
        ghost var g := result[|result| - numAdded..];
        FlattenConcat(groups, [g]);
        FlattenOne(g);
        assert result == was + g;
        formatted := result;
        groups := groups + [g];
        assert unformatted[..i + 1] == unformatted[..i] + [unformatted[i]];
        if k <= i {
          assert groups[..k] == wasGroups[..k];
          assert k == i ==> wasGroups[..k] == wasGroups;
        }
        i := i + 1;
      }
      assert unformatted[..i] == unformatted;
      AllStart(unformatted, groups, cols, clickable, isSpace);
    }

    // A new message; at the bottom the view follows it. The oldest goes if there are too many.
    method AddLine(line: ChatLine)
      requires Valid()
      modifies this
      ensures Valid() && rows == old(rows) && cols == old(cols) && scrollback == old(scrollback)
      ensures |old(unformatted)| <= scrollback ==> |unformatted| <= scrollback
      ensures var all := old(unformatted) + [line];
        unformatted == if |all| > scrollback then all[|all| - scrollback..] else all
      ensures old(scroll == BottomScrollPos()) ==> scroll == BottomScrollPos()
      ensures old(scroll != BottomScrollPos()) && |old(unformatted)| < scrollback ==> scroll == old(scroll)
    {
      AppendLine(line);
      if |unformatted| > scrollback {
        DeleteOldest(|unformatted| - scrollback);
      }
    }

    // The new message and its lines come last.
    method AppendLine(line: ChatLine)
      requires Valid()
      modifies this
      ensures Valid() && rows == old(rows) && cols == old(cols) && scrollback == old(scrollback)
      ensures unformatted == old(unformatted) + [line]
      ensures scroll == if old(scroll == BottomScrollPos()) then BottomScrollPos() else old(scroll)
    {
      hide Kept, Formatted;
      ghost var was, wasFormatted := unformatted, formatted;
      unformatted := unformatted + [line];
      if rows > 0 {
        var scrolledAtBottom := scroll == BottomScrollPos();
        var numAdded, result := FormatChatLine(line, cols, formatted, clickable, isSpace);
        AppendKeeps(was, wasFormatted, groups, line, numAdded, result, cols, clickable, isSpace);
        formatted := result;
        groups := groups + [result[|result| - numAdded..]];
        if scrolledAtBottom {
          scroll := scroll + numAdded;
        }
      } else {
        NothingKept(was, groups, line, clickable, isSpace);
      }
    }
  }

  lemma NothingKept(unformatted: seq<ChatLine>, groups: seq<seq<FormattedLine>>, line: ChatLine, clickable: bool,
                    isSpace: char -> bool)
    ensures Kept(unformatted + [line], [], groups, 0, clickable, isSpace)
  {
  }

  lemma AppendKeeps(unformatted: seq<ChatLine>, formatted: seq<FormattedLine>, groups: seq<seq<FormattedLine>>,
                    line: ChatLine, numAdded: nat, result: seq<FormattedLine>, cols: nat, clickable: bool,
                    isSpace: char -> bool)
    requires Kept(unformatted, formatted, groups, cols, clickable, isSpace)
    requires numAdded <= |result| && result[..|result| - numAdded] == formatted
    requires Formatted(line, cols, result[|result| - numAdded..], clickable, isSpace)
    ensures Kept(unformatted + [line], result, groups + [result[|result| - numAdded..]], cols, clickable, isSpace)
    ensures |result| == |formatted| + numAdded
  {
    hide Formatted, AllFormatted, Flatten, StartsMessage, IsGroup;
    var g := result[|result| - numAdded..];
    assert result == formatted + g;
    FormattedIsGroup(line, cols, g, clickable, isSpace);
    StartsWithMore(formatted, g);
    if cols >= 3 {
      AppendedInOrder(unformatted, groups, line, g, cols, clickable, isSpace);
    }
  }

  lemma AppendedInOrder(lines: seq<ChatLine>, groups: seq<seq<FormattedLine>>, line: ChatLine, g: seq<FormattedLine>,
                        cols: nat, clickable: bool, isSpace: char -> bool)
    requires AllFormatted(lines, groups, cols, clickable, isSpace) && Formatted(line, cols, g, clickable, isSpace)
    ensures AllFormatted(lines + [line], groups + [g], cols, clickable, isSpace)
    ensures Flatten(groups + [g]) == Flatten(groups) + g
  {
    hide Formatted, Flatten;
    FlattenConcat(groups, [g]);
    FlattenOne(g);
  }

  // How many of the first n lines are the first of their message.
  function Marked(lines: seq<FormattedLine>, n: int): nat
    requires n <= |lines|
  {
    if n <= 0 then 0 else Marked(lines, n - 1) + if lines[n - 1].first then 1 else 0
  }

  lemma AllStart(lines: seq<ChatLine>, groups: seq<seq<FormattedLine>>, cols: nat, clickable: bool,
                 isSpace: char -> bool)
    requires AllFormatted(lines, groups, cols, clickable, isSpace)
    ensures StartsMessage(Flatten(groups))
  {
    hide Formatted;
    forall i | 0 <= i < |groups|
      ensures IsGroup(groups[i])
    {
      FormattedIsGroup(lines[i], cols, groups[i], clickable, isSpace);
    }
    FlattenStarts(groups);
  }

  lemma StartsWithMore(a: seq<FormattedLine>, g: seq<FormattedLine>)
    requires StartsMessage(a) && IsGroup(g)
    ensures StartsMessage(a + g)
  {
  }

  lemma StartsMarked(a: seq<FormattedLine>, k: nat)
    requires k < |a| && StartsMessage(a[k..])
    ensures a[k].first
  {
  }

  lemma FlattenStart(groups: seq<seq<FormattedLine>>)
    ensures |Flatten(groups[..0])| == 0 && Flatten([]) == []
  {
  }

  // Behind the first k groups come the lines of the next one, the first of them marked.
  lemma GroupAt(lines: seq<ChatLine>, groups: seq<seq<FormattedLine>>, cols: nat, clickable: bool,
                isSpace: char -> bool, k: nat)
    requires AllFormatted(lines, groups, cols, clickable, isSpace) && cols >= 3 && k < |lines|
    ensures k < |groups|
    ensures var all, start := Flatten(groups), |Flatten(groups[..k])|;
      && start < |all| && all[start].first
      && start + LinesOfOne(all[start..]) == |Flatten(groups[..k + 1])| <= |all|
  {
    hide Formatted;
    var rest := groups[k..];
    forall i | 0 <= i < |groups|
      ensures IsGroup(groups[i]) && groups[i] != []
    {
      NothingFits(lines[i].name, cols);
      FormattedIsGroup(lines[i], cols, groups[i], clickable, isSpace);
    }
    assert groups == groups[..k] + rest && groups[..k + 1] == groups[..k] + [groups[k]];
    FlattenConcat(groups[..k], rest);
    FlattenConcat(groups[..k], [groups[k]]);
    FlattenOne(groups[k]);
    LinesOfOneAreOldest(rest);
    FlattenStarts(rest);
    assert Flatten(groups)[|Flatten(groups[..k])|..] == Flatten(rest);
  }

  // With at least three columns the lines taken are those of the messages that go.
  lemma {:induction false} LinesOfFirstGroups(lines: seq<ChatLine>, groups: seq<seq<FormattedLine>>, cols: nat,
                                              clickable: bool, isSpace: char -> bool, n: nat)
    requires AllFormatted(lines, groups, cols, clickable, isSpace) && cols >= 3 && n <= |lines|
    ensures n <= |groups| && LinesOfFirst(Flatten(groups), n) == |Flatten(groups[..n])|
  {
    hide Formatted, Flatten;
    if n == 0 {
      FlattenStart(groups);
    } else {
      LinesOfFirstGroups(lines, groups, cols, clickable, isSpace, n - 1);
      GroupAt(lines, groups, cols, clickable, isSpace, n - 1);
    }
  }

  lemma SplitGroups(lines: seq<ChatLine>, groups: seq<seq<FormattedLine>>, cols: nat, clickable: bool,
                    isSpace: char -> bool, k: nat)
    requires AllFormatted(lines, groups, cols, clickable, isSpace) && k <= |lines|
    ensures k <= |groups| && AllFormatted(lines[k..], groups[k..], cols, clickable, isSpace)
    ensures |Flatten(groups[..k])| <= |Flatten(groups)|
      && Flatten(groups)[|Flatten(groups[..k])|..] == Flatten(groups[k..])
  {
    hide Formatted;
    assert groups == groups[..k] + groups[k..];
    FlattenConcat(groups[..k], groups[k..]);
  }

  // ---- what a narrow console and a change of height lose

  const NAMED := ChatLine(0.0, "a", "x")
  const UNNAMED := ChatLine(0.0, "", "y")
  const UNNAMED_LINE := FormattedLine([Fragment("y", 0, "")], true)

  // In two columns a message with a name has no lines, so deleting it takes those of the next one.
  lemma NarrowLosesNext(clickable: bool, isSpace: char -> bool)
    ensures InOrder([NAMED, UNNAMED], [UNNAMED_LINE], [[], [UNNAMED_LINE]], 2, clickable, isSpace)
    ensures InOrder([UNNAMED], [UNNAMED_LINE], [[UNNAMED_LINE]], 2, clickable, isSpace)
    ensures [UNNAMED_LINE][LinesOfFirst([UNNAMED_LINE], 1)..] == []
  {
    hide Formatted;
    FormattedAlone(clickable, isSpace);
    var groups := [[], [UNNAMED_LINE]];
    FlattenOne([UNNAMED_LINE]);
    assert groups[1..] == [[UNNAMED_LINE]] && [] + [UNNAMED_LINE] == [UNNAMED_LINE];
    assert [UNNAMED_LINE][0..] == [UNNAMED_LINE];
  }

  lemma FormattedAlone(clickable: bool, isSpace: char -> bool)
    ensures Formatted(NAMED, 2, [], clickable, isSpace) && Formatted(UNNAMED, 2, [UNNAMED_LINE], clickable, isSpace)
  {
    NothingFits("a", 2);
    var f := Fragment("y", 0, "");
    SpellOne(f);
    SpellLinesSnoc([], UNNAMED_LINE);
    assert [] + [UNNAMED_LINE] == [UNNAMED_LINE] && "" + "y" == "y";
    LaidSnoc([], 0, 0, f);
    assert [] + [f] == [f];
    WrappedSnoc("y", [], UNNAMED_LINE, 1, 2, 0, isSpace, false);
  }

  // A console that shows lines 1 and 2 of five goes to the top when it is made one row higher.
  method HigherGoesToTop(buffer: ChatBuffer)
    requires buffer.Valid() && buffer.cols == 80 && buffer.rows == 2
    requires |buffer.formatted| == 5 && buffer.scroll == 1
    modifies buffer
    ensures buffer.rows == 3 && buffer.formatted == old(buffer.formatted)
    ensures buffer.scroll == 0 && buffer.TopScrollPos() <= old(buffer.scroll) <= buffer.BottomScrollPos()
  {
    buffer.Reformat(80, 3);
  }
}
