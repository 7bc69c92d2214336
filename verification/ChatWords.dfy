// Where the lines of a message break, and that its links all get into them (src/chat.cpp:215-411).

module ChatWords {
  import opened ChatText
  import opened ChatLayout

  // What stays the same while a message is laid out: its text, the length of what precedes it, and
  // whether there are links.
  datatype Message = Message(text: string, prefix: nat, clickable: bool, isSpace: char -> bool)

  // The place in the text of place p in the line, and 0 if that is still before the text.
  function InText(m: Message, p: nat): nat {
    if p > m.prefix then p - m.prefix else 0
  }

  // A line that shows the text from start on may end at p: with the text, with a whitespace, where
  // there is no whitespace in it but for the first character, inside or behind a link, or where there
  // is no such whitespace since a link.
  ghost predicate MayEnd(m: Message, start: nat, p: nat) {
    && start <= p <= |m.text|
    && (|| WordsEnd(m.text, start, p, m.isSpace)
        || (m.clickable && InLink(m.text, p, m.isSpace))
        || (m.clickable && exists q: nat ::
              start < q < p && BehindLink(m.text, q, m.isSpace) && Unbroken(m.text, q, p, m.isSpace)))
  }

  // All lines end there, but for those that end in what precedes the text.
  ghost predicate WordLines(m: Message, lines: seq<FormattedLine>)
    decreases |lines|
  {
    lines != [] ==>
      var before := lines[..|lines| - 1];
      && (|SpellLines(lines)| > m.prefix ==>
            MayEnd(m, InText(m, |SpellLines(before)|), |SpellLines(lines)| - m.prefix))
      && WordLines(m, before)
  }

  // The place behind what is laid out, and the one behind the waiting fragments.
  function Placed(l: Layout): nat {
    |SpellLines(l.lines)| + |Spell(l.current.fragments)|
  }

  // With nothing waiting the next fragment starts a line or stands behind a link; else the last one
  // that waits is a part of a link up to its end, or words that end the line in time.
  ghost predicate Ready(m: Message, l: Layout, cols: nat) {
    var start := InText(m, |SpellLines(l.lines)|);
    if l.waiting == [] then
      Placed(l) >= m.prefix ==> Anchored(m, start, Placed(l) - m.prefix)
    else
      var n := |l.waiting| - 1;
      var end := Placed(l) + |Spell(l.waiting)|;
      || end <= m.prefix
      || (Placed(l) >= m.prefix && l.column + |Spell(l.waiting[..n])| < cols
          && EndsWell(m, start, l.waiting[n], end - m.prefix, l.column + |Spell(l.waiting)| <= cols))
  }

  ghost predicate Anchored(m: Message, start: nat, p: nat) {
    p == start || (start < p && m.clickable && BehindLink(m.text, p, m.isSpace))
  }

  ghost predicate EndsWell(m: Message, start: nat, last: Fragment, end: nat, fits: bool) {
    || (m.clickable && LinkRest(m, end - |last.text|, end))
    || (fits && last.column == INT_MAX && MayEnd(m, start, end))
  }

  ghost predicate LinkRest(m: Message, q: int, end: nat) {
    exists i: nat, n: nat :: LinkAt(m.text, i, n, m.isSpace) && i <= q && i < end == i + n
  }

  // ---- one round of the layout

  lemma LineEnds(m: Message, l: Layout, hanging: nat)
    requires WordLines(m, l.lines)
    requires Placed(l) > m.prefix ==> MayEnd(m, InText(m, |SpellLines(l.lines)|), Placed(l) - m.prefix)
    ensures WordLines(m, EndLine(l, hanging).lines)
    ensures |SpellLines(EndLine(l, hanging).lines)| == Placed(l) == Placed(EndLine(l, hanging))
  {
    hide MayEnd, Spell, SpellLines;
    SpellLinesSnoc(l.lines, l.current);
    NothingCurrent(hanging);
    assert (l.lines + [l.current])[..|l.lines|] == l.lines;
  }

  lemma FirstWaits(waiting: seq<Fragment>)
    requires waiting != []
    ensures |Spell(waiting)| == |waiting[0].text| + |Spell(waiting[1..])|
    ensures |waiting| == 1 ==> Spell(waiting[1..]) == "" && Spell(waiting[..0]) == ""
    ensures |waiting| > 1 ==>
      var n := |waiting| - 1;
      |Spell(waiting[..n])| == |waiting[0].text| + |Spell(waiting[1..][..n - 1])|
        && waiting[1..][n - 1] == waiting[n] && |Spell(waiting[..n])| >= |waiting[0].text|
  {
    if |waiting| > 1 {
      var n := |waiting| - 1;
      assert waiting[..n][0] == waiting[0] && waiting[..n][1..] == waiting[1..][..n - 1];
    }
  }

  // The last waiting fragment is laid out whole.
  lemma LastFits(m: Message, l: Layout, cols: nat, hanging: nat)
    requires WordLines(m, l.lines) && Ready(m, l, cols) && |l.waiting| == 1 && l.column + |l.waiting[0].text| <= cols
    requires l.column < cols
    ensures WordLines(m, LayOne(l, cols, hanging).lines) && Ready(m, LayOne(l, cols, hanging), cols)
  {
    hide Spell, SpellLines, LinkAt, MayEnd, WordLines;
    var frag := l.waiting[0];
    var placed := frag.(column := l.column);
    var l' := l.(current := l.current.(fragments := l.current.fragments + [placed]),
      column := l.column + |frag.text|, waiting := l.waiting[1..]);
    FirstWaits(l.waiting);
    SpellSnoc(l.current.fragments, placed);
    var start, end := InText(m, |SpellLines(l.lines)|), Placed(l) + |frag.text|;
    if end > m.prefix {
      EndsThere(m, start, frag, end - m.prefix, true);
    }
    if l'.column == cols || frag.column == INT_MAX {
      LineEnds(m, l', hanging);
    }
  }

  // Where the last fragment ends the line may end, and it is behind a link if it need not.
  lemma EndsThere(m: Message, start: nat, last: Fragment, end: nat, fits: bool)
    requires EndsWell(m, start, last, end, fits) && start + |last.text| <= end
    ensures MayEnd(m, start, end)
    ensures last.column == INT_MAX || Anchored(m, start, end)
  {
    hide LinkAt, WordsEnd;
    if m.clickable && LinkRest(m, end - |last.text|, end) {
      var i: nat, n: nat :| LinkAt(m.text, i, n, m.isSpace) && i <= end - |last.text| && i < end == i + n;
      LinkLong(m.text, i, n, m.isSpace);
      assert InLink(m.text, end, m.isSpace) && BehindLink(m.text, end, m.isSpace);
    }
  }

  // One of the others is.
  lemma OtherFits(m: Message, l: Layout, cols: nat, hanging: nat)
    requires WordLines(m, l.lines) && Ready(m, l, cols) && |l.waiting| > 1 && l.column + |l.waiting[0].text| <= cols
    requires l.column < cols && l.waiting[0].column != INT_MAX
    ensures WordLines(m, LayOne(l, cols, hanging).lines) && Ready(m, LayOne(l, cols, hanging), cols)
  {
    hide Spell, SpellLines, EndsWell, MayEnd, WordLines;
    var frag := l.waiting[0];
    var placed := frag.(column := l.column);
    var l' := l.(current := l.current.(fragments := l.current.fragments + [placed]),
      column := l.column + |frag.text|, waiting := l.waiting[1..]);
    FirstWaits(l.waiting);
    SpellSnoc(l.current.fragments, placed);
    if l'.column == cols {
      LineEnds(m, l', hanging);
    }
  }

  // The fragment is cut at the end of the line: it is a link, or stands before the text.
  lemma IsCut(m: Message, l: Layout, cols: nat, hanging: nat)
    requires WordLines(m, l.lines) && Ready(m, l, cols) && l.waiting != [] && l.column + |l.waiting[0].text| > cols
    requires l.column < cols && hanging < cols
    ensures WordLines(m, LayOne(l, cols, hanging).lines) && Ready(m, LayOne(l, cols, hanging), cols)
  {
    hide Spell, SpellLines, LinkAt, MayEnd, WordLines;
    var frag, room := l.waiting[0], cols - l.column;
    var placed := Fragment(frag.text[..room], l.column, frag.weblink);
    var left := frag.(text := frag.text[room..], column := 0);
    var l' := l.(current := l.current.(fragments := l.current.fragments + [placed]),
      waiting := [left] + l.waiting[1..]);
    FirstWaits(l.waiting);
    FirstWaits(l'.waiting);
    assert l'.waiting[1..] == l.waiting[1..];
    SpellSnoc(l.current.fragments, placed);
    var end := Placed(l) + |Spell(l.waiting)|;
    if end > m.prefix {
      assert |l.waiting| == 1;
      LinkCut(m, InText(m, |SpellLines(l.lines)|), |frag.text|, Placed(l) + room - m.prefix, end - m.prefix);
    }
    LineEnds(m, l', hanging);
  }

  lemma LinkCut(m: Message, start: nat, length: nat, p: nat, end: nat)
    requires m.clickable && LinkRest(m, end - length, end) && start <= end - length < p < end
    ensures MayEnd(m, start, p) && LinkRest(m, p, end)
  {
    hide LinkAt, WordsEnd;
    var i: nat, n: nat :| LinkAt(m.text, i, n, m.isSpace) && i <= end - length && i < end == i + n;
    LinkLong(m.text, i, n, m.isSpace);
    assert InLink(m.text, p, m.isSpace);
  }

  lemma LayOneWorded(m: Message, l: Layout, cols: nat, hanging: nat)
    requires WordLines(m, l.lines) && Ready(m, l, cols) && l.waiting != [] && l.column < cols && hanging < cols
    requires forall j :: 0 <= j < |l.waiting| - 1 ==> l.waiting[j].column != INT_MAX
    ensures WordLines(m, LayOne(l, cols, hanging).lines) && Ready(m, LayOne(l, cols, hanging), cols)
  {
    hide LayOne, Ready, WordLines;
    if l.column + |l.waiting[0].text| > cols {
      IsCut(m, l, cols, hanging);
    } else if |l.waiting| == 1 {
      LastFits(m, l, cols, hanging);
    } else {
      OtherFits(m, l, cols, hanging);
    }
  }

  // ---- the next fragments

  lemma NowReady(m: Message, l: Layout, inPos: nat, frags: seq<Fragment>, end: nat, cols: nat)
    requires l.waiting == [] && Ready(m, l, cols) && Placed(l) == m.prefix + inPos && l.column < cols
    requires Produced(m.text, inPos, frags, end, cols - l.column, m.isSpace)
    requires LastWords(m.text, inPos, frags, end, cols - l.column, m.clickable, m.isSpace)
    ensures Ready(m, l.(waiting := frags), cols)
  {
    hide Spell, SpellLines, LinkAt, MayForce, WordsEnd, BehindLink;
    var start, n := InText(m, |SpellLines(l.lines)|), |frags| - 1;
    var q := end - |frags[n].text|;
    if m.clickable && LinkAt(m.text, q, end - q, m.isSpace) {
      LinkLong(m.text, q, end - q, m.isSpace);
      assert LinkRest(m, q, end);
    } else {
      WordsMayEnd(m, start, inPos, q, end);
    }
  }

  lemma WordsMayEnd(m: Message, start: nat, inPos: nat, q: nat, end: nat)
    requires start <= inPos <= q <= end <= |m.text| && Anchored(m, start, inPos)
    requires WordsEnd(m.text, q, end, m.isSpace) && (q < end || end == |m.text|)
    requires q == inPos || (m.clickable && BehindLink(m.text, q, m.isSpace))
    ensures MayEnd(m, start, end)
  {
    hide BehindLink;
  }

  // ---- the links shown

  ghost function LineLinksOf(lines: seq<FormattedLine>): set<string> {
    set l, f | l in lines && f in l.fragments :: f.weblink
  }

  ghost function Shown(l: Layout): set<string> {
    LineLinksOf(l.lines) + LinksOf(l.current.fragments) + LinksOf(l.waiting)
  }

  lemma LinksOfParts(a: seq<Fragment>, b: seq<Fragment>)
    ensures LinksOf(a + b) == LinksOf(a) + LinksOf(b)
  {
  }

  lemma LinksOfLines(lines: seq<FormattedLine>, l: FormattedLine)
    ensures LineLinksOf(lines + [l]) == LineLinksOf(lines) + LinksOf(l.fragments)
  {
    forall link | link in LinksOf(l.fragments)
      ensures link in LineLinksOf(lines + [l])
    {
      var f :| f in l.fragments && f.weblink == link;
      assert l in lines + [l];
    }
    forall link | link in LineLinksOf(lines)
      ensures link in LineLinksOf(lines + [l])
    {
      var k, f :| k in lines && f in k.fragments && f.weblink == link;
      assert k in lines + [l];
    }
  }

  lemma OneLink(f: Fragment)
    ensures LinksOf([f]) == {f.weblink} && LinksOf([]) == {}
  {
    assert f in [f];
  }

  lemma LayOneShows(l: Layout, cols: nat, hanging: nat)
    requires l.waiting != [] && l.column < cols
    ensures Shown(LayOne(l, cols, hanging)) == Shown(l)
  {
    hide LinksOf, LineLinksOf;
    var frag, room := l.waiting[0], cols - l.column;
    OneLink(frag);
    LinksOfParts([frag], l.waiting[1..]);
    assert l.waiting == [frag] + l.waiting[1..];
    if |frag.text| <= room {
      var placed := frag.(column := l.column);
      OneLink(placed);
      LinksOfParts(l.current.fragments, [placed]);
      LinksOfLines(l.lines, l.current.(fragments := l.current.fragments + [placed]));
    } else {
      var placed := Fragment(frag.text[..room], l.column, frag.weblink);
      var left := frag.(text := frag.text[room..], column := 0);
      OneLink(placed);
      OneLink(left);
      LinksOfParts(l.current.fragments, [placed]);
      LinksOfParts([left], l.waiting[1..]);
      LinksOfLines(l.lines, l.current.(fragments := l.current.fragments + [placed]));
    }
  }

  // ---- a whole message

  ghost predicate LaidSoFar(m: Message, l: Layout, cols: nat, inPos: nat) {
    && WordLines(m, l.lines) && Ready(m, l, cols)
    && (m.clickable ==> AllGiven(m.text, 0, inPos, Shown(l), m.isSpace))
  }

  // All lines but the last break at words, and all links are there.
  ghost predicate Worded(m: Message, lines: seq<FormattedLine>) {
    && (lines != [] ==> WordLines(m, lines[..|lines| - 1]))
    && (m.clickable ==> AllGiven(m.text, 0, |m.text|, LineLinksOf(lines), m.isSpace))
  }

  lemma LaidStarts(m: Message, frags: seq<Fragment>, cols: nat)
    requires |Spell(frags)| == m.prefix
    ensures LaidSoFar(m, Layout([], FormattedLine([], true), 0, frags), cols, 0)
  {
    hide NextLink;
    NextLinkFound(m.text, 0);
  }

  lemma LaidOne(m: Message, l: Layout, cols: nat, hanging: nat, inPos: nat)
    requires LaidSoFar(m, l, cols, inPos) && l.waiting != [] && l.column < cols && hanging < cols
    requires forall j :: 0 <= j < |l.waiting| - 1 ==> l.waiting[j].column != INT_MAX
    ensures LaidSoFar(m, LayOne(l, cols, hanging), cols, inPos)
  {
    hide LayOne, Ready, WordLines, Shown, AllGiven;
    LayOneWorded(m, l, cols, hanging);
    LayOneShows(l, cols, hanging);
  }

  lemma LaidMore(m: Message, l: Layout, inPos: nat, frags: seq<Fragment>, end: nat, cols: nat)
    requires l.waiting == [] && LaidSoFar(m, l, cols, inPos) && Placed(l) == m.prefix + inPos && l.column < cols
    requires Produced(m.text, inPos, frags, end, cols - l.column, m.isSpace)
    requires LastWords(m.text, inPos, frags, end, cols - l.column, m.clickable, m.isSpace)
    requires m.clickable ==> AllGiven(m.text, 0, end, Shown(l) + LinksOf(frags), m.isSpace)
    ensures LaidSoFar(m, l.(waiting := frags), cols, end)
  {
    hide Ready, WordLines, AllGiven, Produced, LastWords, Placed, LinksOf, LineLinksOf;
    NowReady(m, l, inPos, frags, end, cols);
    OneLink(Fragment("", 0, ""));
    assert Shown(l.(waiting := frags)) == Shown(l) + LinksOf(frags);
  }

  lemma LaidEnds(m: Message, l: Layout, cols: nat)
    requires l.waiting == [] && LaidSoFar(m, l, cols, |m.text|)
    ensures var lines := if l.lines == [] || l.current.fragments != [] then l.lines + [l.current] else l.lines;
      Worded(m, lines)
  {
    hide Ready, AllGiven, LinksOf, LineLinksOf, MayEnd;
    OneLink(Fragment("", 0, ""));
    LinksOfLines(l.lines, l.current);
    assert (l.lines + [l.current])[..|l.lines|] == l.lines;
    if l.lines != [] && l.current.fragments == [] {
      assert Shown(l) == LineLinksOf(l.lines);
    } else {
      assert Shown(l) == LineLinksOf(l.lines + [l.current]);
    }
  }
}
