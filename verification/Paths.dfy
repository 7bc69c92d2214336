// Removing "." and ".." from a path (src/filesys.cpp:777-828), with '/' as the delimiter.

module PathComponents {
  import opened Options

  const DELIM := '/'

  function ComponentEnd(s: string): (n: nat)
    ensures n <= |s|
    ensures forall i :: 0 <= i < n ==> s[i] != DELIM
    ensures n < |s| ==> s[n] == DELIM
  {
    if s == "" || s[0] == DELIM then 0 else 1 + ComponentEnd(s[1..])
  }

  // The non-empty stretches between delimiters.
  function Components(s: string): seq<string>
    decreases |s|
  {
    if s == "" then []
    else if s[0] == DELIM then Components(s[1..])
    else [s[..ComponentEnd(s)]] + Components(s[ComponentEnd(s)..])
  }

  predicate Delims(s: string) {
    forall i :: 0 <= i < |s| ==> s[i] == DELIM
  }

  predicate Separated(a: string, b: string) {
    a == "" || b == "" || a[|a| - 1] == DELIM || b[0] == DELIM
  }

  lemma {:induction false} ComponentEndConcat(a: string, b: string)
    requires Separated(a, b)
    ensures ComponentEnd(a + b) == ComponentEnd(a) || (a == "" && a + b == b)
  {
    if a != "" && a[0] != DELIM {
      assert (a + b)[1..] == a[1..] + b;
      if |a| > 1 {
        ComponentEndConcat(a[1..], b);
      } else {
        assert a[1..] + b == b;
      }
    }
  }

  // Where a delimiter separates them, the components of a text are those of its two parts.
  lemma {:induction false} ComponentsConcat(a: string, b: string)
    requires Separated(a, b)
    ensures Components(a + b) == Components(a) + Components(b)
    decreases |a|
  {
    if a == "" {
      assert a + b == b;
    } else if a[0] == DELIM {
      assert (a + b)[1..] == a[1..] + b;
      ComponentsConcat(a[1..], b);
    } else {
      var n := ComponentEnd(a);
      ComponentEndConcat(a, b);
      assert (a + b)[..n] == a[..n] && (a + b)[n..] == a[n..] + b;
      ComponentsConcat(a[n..], b);
    }
  }

  lemma {:induction false} ComponentsOfDelims(s: string)
    requires Delims(s)
    ensures Components(s) == []
  {
    if s != "" {
      ComponentsOfDelims(s[1..]);
    }
  }

  lemma ComponentsOfOne(s: string)
    requires s != "" && forall i :: 0 <= i < |s| ==> s[i] != DELIM
    ensures Components(s) == [s]
  {
    assert ComponentEnd(s) == |s|;
    assert s[..|s|] == s && s[|s|..] == "";
  }

  // A slash ends a component, and any other text without one is a component itself.
  lemma SlashesSeparate(a: string, b: string)
    ensures Components(a + "/" + b) == Components(a) + Components(b)
    ensures '/' !in b && b != "" ==> Components(b) == [b]
    ensures Components("") == []
  {
    hide Components;
    assert Separated(a, "/" + b) && a + "/" + b == a + ("/" + b);
    ComponentsConcat(a, "/" + b);
    SlashFirst(b);
    if '/' !in b && b != "" {
      ComponentsOfOne(b);
    }
    ComponentsOfDelims("");
  }

  lemma SlashFirst(b: string)
    ensures Components("/" + b) == Components(b)
  {
    assert ("/" + b)[1..] == b;
  }

  // ---- two ways to evaluate "." and ".."

  // Left to right with a stack; going up from nothing fails.
  function Evaluate(stack: seq<string>, comps: seq<string>): Option<seq<string>>
    decreases |comps|
  {
    if comps == [] then Some(stack)
    else if comps[0] == "." then Evaluate(stack, comps[1..])
    else if comps[0] == ".." then if stack == [] then None else Evaluate(stack[..|stack| - 1], comps[1..])
    else Evaluate(stack + [comps[0]], comps[1..])
  }

  // Right to left, counting the ".." still to be paid for.
  datatype Scan = Scan(kept: seq<string>, dotdots: nat)

  function ScanRight(comps: seq<string>): Scan {
    if comps == [] then Scan([], 0)
    else
      var s := ScanRight(comps[1..]);
      if comps[0] == "." then s
      else if comps[0] == ".." then s.(dotdots := s.dotdots + 1)
      else if s.dotdots != 0 then s.(dotdots := s.dotdots - 1)
      else s.(kept := [comps[0]] + s.kept)
  }

  lemma {:induction false} ScanIsEvaluation(stack: seq<string>, comps: seq<string>)
    ensures var s := ScanRight(comps);
      Evaluate(stack, comps) == if s.dotdots <= |stack| then Some(stack[..|stack| - s.dotdots] + s.kept) else None
    decreases |comps|
  {
    var s := ScanRight(comps);
    if comps == [] {
      assert stack[..|stack|] + [] == stack;
    } else if comps[0] == "." {
      ScanIsEvaluation(stack, comps[1..]);
    } else if comps[0] == ".." {
      if stack != [] {
        var below := stack[..|stack| - 1];
        ScanIsEvaluation(below, comps[1..]);
        assert s.dotdots <= |stack| ==> below[..|stack| - s.dotdots] == stack[..|stack| - s.dotdots];
      }
    } else {
      var pushed, t := stack + [comps[0]], ScanRight(comps[1..]);
      ScanIsEvaluation(pushed, comps[1..]);
      if t.dotdots == 0 {
        assert pushed[..|pushed|] + t.kept == stack[..|stack|] + s.kept;
      } else if t.dotdots <= |pushed| {
        assert pushed[..|pushed| - t.dotdots] == stack[..|stack| - s.dotdots];
      }
    }
  }

  lemma {:induction false} EvaluateConcat(stack: seq<string>, a: seq<string>, b: seq<string>)
    ensures Evaluate(stack, a + b) ==
      match Evaluate(stack, a) case None => None case Some(t) => Evaluate(t, b)
    decreases |a|
  {
    hide Evaluate;
    EvaluateCons(stack, a);
    EvaluateCons(stack, a + b);
    if a == [] {
      assert a + b == b;
    } else {
      assert (a + b)[1..] == a[1..] + b;
      EvaluateConcat(stack, a[1..], b);
      EvaluateConcat(stack + [a[0]], a[1..], b);
      if stack != [] {
        EvaluateConcat(stack[..|stack| - 1], a[1..], b);
      }
    }
  }

  lemma EvaluateCons(stack: seq<string>, comps: seq<string>)
    ensures Evaluate(stack, []) == Some(stack)
    ensures comps != [] ==>
      Evaluate(stack, comps) ==
        if comps[0] == "." then Evaluate(stack, comps[1..])
        else if comps[0] != ".." then Evaluate(stack + [comps[0]], comps[1..])
        else if stack == [] then None
        else Evaluate(stack[..|stack| - 1], comps[1..])
  {
  }

  // Anywhere in a path "." changes nothing, ".." takes back the name before it, and names alone are
  // the path itself; a ".." at the start leads out of it.
  lemma DotsMean(a: seq<string>, name: string, b: seq<string>)
    ensures Evaluate([], a + ["."] + b) == Evaluate([], a + b)
    ensures name != "." && name != ".." ==> Evaluate([], a + [name, ".."] + b) == Evaluate([], a + b)
    ensures NoDots(a) ==> Evaluate([], a) == Some(a)
    ensures Evaluate([], [".."] + b) == None
  {
    hide Evaluate, NoDots;
    EvaluateConcat([], a, b);
    EvaluateConcat([], a + ["."], b);
    EvaluateConcat([], a, ["."]);
    EvaluateConcat([], a + [name, ".."], b);
    EvaluateConcat([], a, [name, ".."]);
    EvaluateConcat([], [".."], b);
    EvaluateCons([], [".."]);
    if Evaluate([], a).Some? {
      OneDot(Evaluate([], a).value);
      if name != "." && name != ".." {
        UpFromName(Evaluate([], a).value, name);
      }
    }
    if NoDots(a) {
      ScanKeepsNoDots(a);
      ScanIsEvaluation([], a);
      assert [][..0] + a == a;
    }
  }

  lemma OneDot(stack: seq<string>)
    ensures Evaluate(stack, ["."]) == Some(stack)
  {
  }

  lemma UpFromName(stack: seq<string>, name: string)
    requires name != "." && name != ".."
    ensures Evaluate(stack, [name, ".."]) == Some(stack)
  {
    hide Evaluate;
    EvaluateCons(stack, [name, ".."]);
    EvaluateCons(stack + [name], [".."]);
    EvaluateCons(stack, []);
    assert [name, ".."][1..] == [".."] && [".."][1..] == [];
    assert (stack + [name])[..|stack|] == stack;
  }

  lemma ScanCons(c: string, t: seq<string>)
    ensures var s := ScanRight(t);
      ScanRight([c] + t) ==
        if c == "." then s
        else if c == ".." then s.(dotdots := s.dotdots + 1)
        else if s.dotdots != 0 then s.(dotdots := s.dotdots - 1)
        else s.(kept := [c] + s.kept)
  {
    assert ([c] + t)[1..] == t;
  }

  predicate NoDots(comps: seq<string>) {
    forall c :: c in comps ==> c != "." && c != ".."
  }

  lemma {:induction false} ScanKeepsNoDots(comps: seq<string>)
    ensures NoDots(ScanRight(comps).kept)
    ensures NoDots(comps) ==> ScanRight(comps) == Scan(comps, 0)
  {
    if comps != [] {
      ScanKeepsNoDots(comps[1..]);
      assert comps == [comps[0]] + comps[1..];
      assert comps[0] in comps && forall c :: c in comps[1..] ==> c in comps;
    }
  }
}

module Paths {
  import opened Options
  import opened PathComponents

  predicate Absolute(path: string) {
    path != "" && path[0] == DELIM
  }

  predicate EndsOpen(path: string) {
    path == "" || path[|path| - 1] != DELIM
  }

  // The path while it is scanned from the right: before pos it is still the original, after pos
  // are the components kept so far. rest lists the original components already read.
  ghost predicate Scanning(original: string, path: string, pos: nat, dotdots: nat, rest: seq<string>) {
    && Shape(original, path, pos, dotdots)
    && Parts(original, path, pos, dotdots, rest)
  }

  ghost predicate Shape(original: string, path: string, pos: nat, dotdots: nat) {
    && pos <= |path| && pos <= |original| && path[..pos] == original[..pos]
    && Separated(path[..pos], path[pos..])
    && (0 < pos < |path| ==> path[pos] != DELIM)
    && (pos > 0 && dotdots > 0 ==> pos >= 2 && path[pos - 1] == DELIM && path[pos - 2] != DELIM)
    && (pos == 0 && path != "" ==> (Absolute(path) <==> Absolute(original)))
  }

  ghost predicate Parts(original: string, path: string, pos: nat, dotdots: nat, rest: seq<string>)
    requires pos <= |path|
  {
    && Components(original) == Components(path[..pos]) + rest
    && ScanRight(rest) == Scan(Components(path[pos..]), dotdots)
    && (NoDots(Components(original)) ==> path == original && dotdots == 0)
  }

  // The last component before end, from start to compEnd, between delimiters or the ends.
  predicate LastComponent(path: string, start: nat, compEnd: nat, end: nat) {
    && start <= compEnd <= end <= |path|
    && (forall i :: compEnd <= i < end ==> path[i] == DELIM)
    && (compEnd > 0 ==> path[compEnd - 1] != DELIM)
    && (forall i :: start <= i < compEnd ==> path[i] != DELIM)
    && (start > 0 ==> path[start - 1] == DELIM)
  }

  lemma DelimSlice(path: string, a: nat, b: nat)
    requires a <= b <= |path| && forall i :: a <= i < b ==> path[i] == DELIM
    ensures Delims(path[a..b]) && Components(path[a..b]) == []
    ensures forall s :: Separated(s, path[a..b])
  {
    ComponentsOfDelims(path[a..b]);
  }

  lemma NameSlice(path: string, a: nat, b: nat)
    requires a <= b <= |path| && forall i :: a <= i < b ==> path[i] != DELIM
    ensures Components(path[a..b]) == if a < b then [path[a..b]] else []
  {
    if a < b {
      ComponentsOfOne(path[a..b]);
    }
  }

  lemma SplitLast(path: string, start: nat, compEnd: nat, end: nat)
    requires LastComponent(path, start, compEnd, end) && end > 0
    ensures compEnd == start ==> start == 0 && Components(path[..end]) == []
    ensures compEnd > start ==> Components(path[..end]) == Components(path[..start]) + [path[start..compEnd]]
    ensures Separated(path[..start], path[start..])
  {
    hide Components, Delims;
    var before, comp, delims := path[..start], path[start..compEnd], path[compEnd..end];
    assert path[..end] == before + (comp + delims);
    assert Separated(before, comp + delims) && Separated(before, path[start..]) by {
      assert start > 0 ==> before[start - 1] == DELIM;
    }
    ComponentsConcat(before, comp + delims);
    DelimSlice(path, compEnd, end);
    ComponentsConcat(comp, delims);
    NameSlice(path, start, compEnd);
    if compEnd == start {
      assert start == 0;
      DelimSlice(path, 0, 0);
      assert before == path[0..0];
    }
  }

  lemma KeepComponent(original: string, path: string, start: nat, compEnd: nat, end: nat, rest: seq<string>)
    returns (rest': seq<string>)
    requires Scanning(original, path, end, 0, rest) && end > 0
    requires LastComponent(path, start, compEnd, end)
    requires path[start..compEnd] != "." && path[start..compEnd] != ".."
    ensures Scanning(original, path, start, 0, rest')
  {
    KeepShape(original, path, start, compEnd, end);
    rest' := KeepParts(original, path, start, compEnd, end, rest);
  }

  lemma KeepShape(original: string, path: string, start: nat, compEnd: nat, end: nat)
    requires Shape(original, path, end, 0) && end > 0
    requires LastComponent(path, start, compEnd, end)
    ensures Shape(original, path, start, 0)
  {
    hide Components;
    SplitLast(path, start, compEnd, end);
    assert original[..start] == original[..end][..start] == path[..end][..start] == path[..start];
    assert path[0] == path[..end][0] == original[..end][0] == original[0];
  }

  lemma KeepParts(original: string, path: string, start: nat, compEnd: nat, end: nat, rest: seq<string>)
    returns (rest': seq<string>)
    requires Shape(original, path, end, 0) && Parts(original, path, end, 0, rest) && end > 0
    requires LastComponent(path, start, compEnd, end)
    requires path[start..compEnd] != "." && path[start..compEnd] != ".."
    ensures Parts(original, path, start, 0, rest')
  {
    hide NoDots, Components, ScanRight, Delims, Separated;
    SplitLast(path, start, compEnd, end);
    AfterComponent(path, start, compEnd, end);
    var comp := path[start..compEnd];
    if compEnd > start {
      rest' := [comp] + rest;
      ScanCons(comp, rest);
      assert Components(path[..start]) + [comp] + rest == Components(path[..start]) + rest';
    } else {
      DelimSlice(path, 0, 0);
      assert path[..0] == path[0..0];
      rest' := rest;
      assert [] + rest == rest;
      assert [] + Components(path[end..]) == Components(path[end..]);
    }
  }

  lemma AfterComponent(path: string, start: nat, compEnd: nat, end: nat)
    requires LastComponent(path, start, compEnd, end) && end > 0
    requires Separated(path[..end], path[end..])
    ensures Components(path[start..]) ==
      (if compEnd > start then [path[start..compEnd]] else []) + Components(path[end..])
  {
    hide Components, Delims;
    var comp, delims, after := path[start..compEnd], path[compEnd..end], path[end..];
    assert path[start..] == comp + (delims + after);
    SeparatedDelims(path, compEnd, end);
    DelimSlice(path, compEnd, end);
    NameSlice(path, start, compEnd);
    ComponentsConcat(comp, delims + after);
    ComponentsConcat(delims, after);
    assert [] + Components(after) == Components(after);
  }

  lemma SeparatedDelims(path: string, compEnd: nat, end: nat)
    requires compEnd <= end <= |path| && end > 0 && forall i :: compEnd <= i < end ==> path[i] == DELIM
    requires compEnd > 0 ==> path[compEnd - 1] != DELIM
    requires Separated(path[..end], path[end..])
    ensures Separated(path[compEnd..end], path[end..])
    ensures var delims, after := path[compEnd..end], path[end..];
      delims + after == "" || (delims + after)[0] == DELIM
  {
    if compEnd == end {
      assert path[..end][end - 1] == path[compEnd - 1];
    }
  }

  // Removing a component that starts the path takes its delimiter along.
  lemma RemoveFirst(original: string, path: string, compEnd: nat, end: nat, dotdots: nat, rest: seq<string>,
                    dotdots': nat)
    returns (rest': seq<string>)
    requires Scanning(original, path, end, dotdots, rest) && end > 0
    requires LastComponent(path, 0, compEnd, end) && compEnd > 0
    requires Removes(path[..compEnd], dotdots, dotdots')
    ensures Scanning(original, path[end..], 0, dotdots', rest')
  {
    hide NoDots, Components, ScanRight, Delims;
    SplitLast(path, 0, compEnd, end);
    var comp := path[0..compEnd];
    assert comp == path[..compEnd];
    rest' := [comp] + rest;
    ScanCons(comp, rest);
    var path' := path[end..];
    assert path'[0..] == path';
    DelimSlice(path, 0, 0);
    assert path'[..0] == path[0..0] == path[..0];
    assert Components(original) == [] + rest' by {
      assert [] + [comp] + rest == [] + rest';
    }
    RemovedIsDot(original, comp, dotdots, dotdots', path);
    assert original[0] == original[..end][0] == path[..end][0] == path[0];
  }

  // comp disappears: it is ".", or "..", or pays for a ".." to its right.
  predicate Removes(comp: string, dotdots: nat, dotdots': nat) {
    if comp == "." then dotdots' == dotdots
    else if comp == ".." then dotdots' == dotdots + 1
    else dotdots != 0 && dotdots' == dotdots - 1
  }

  lemma RemovedIsDot(original: string, comp: string, dotdots: nat, dotdots': nat, path: string)
    requires Removes(comp, dotdots, dotdots') && comp in Components(original)
    requires NoDots(Components(original)) ==> path == original && dotdots == 0
    ensures !NoDots(Components(original))
  {
  }

  // Removing any other component closes the gap with one delimiter.
  lemma RemoveLater(original: string, path: string, before: nat, start: nat, compEnd: nat, end: nat,
                    dotdots: nat, rest: seq<string>, dotdots': nat)
    returns (rest': seq<string>)
    requires Scanning(original, path, end, dotdots, rest) && end > 0
    requires LastComponent(path, start, compEnd, end) && compEnd > start > before
    requires (forall i :: before <= i < start ==> path[i] == DELIM) && (before > 0 ==> path[before - 1] != DELIM)
    requires Removes(path[start..compEnd], dotdots, dotdots')
    ensures Scanning(original, path[..before] + [DELIM] + path[end..], if before > 0 then before + 1
                     else 0, dotdots', rest')
  {
    RemoveShape(original, path, before, start, compEnd, end, dotdots, dotdots');
    rest' := RemoveParts(original, path, before, start, compEnd, end, dotdots, rest, dotdots');
  }

  lemma RemoveShape(original: string, path: string, before: nat, start: nat, compEnd: nat, end: nat,
                    dotdots: nat, dotdots': nat)
    requires Shape(original, path, end, dotdots) && end > 0
    requires LastComponent(path, start, compEnd, end) && compEnd > start > before
    requires (forall i :: before <= i < start ==> path[i] == DELIM) && (before > 0 ==> path[before - 1] != DELIM)
    ensures Shape(original, path[..before] + [DELIM] + path[end..], if before > 0 then before + 1 else 0, dotdots')
  {
    var kept, after := path[..before], path[end..];
    var path' := kept + [DELIM] + after;
    assert original[before] == original[..end][before] == path[..end][before] == path[before];
    assert original[0] == original[..end][0] == path[..end][0] == path[0];
    if before > 0 {
      assert path'[..before + 1] == kept + [DELIM] && path'[before + 1..] == after;
      assert original[..before + 1] == original[..end][..before + 1] == path[..end][..before + 1] == kept + [DELIM];
      if after != "" {
        assert path'[before + 1] == after[0] == path[end];
      }
    } else {
      assert path'[..0] == original[..0];
    }
  }

  lemma RemoveParts(original: string, path: string, before: nat, start: nat, compEnd: nat, end: nat,
                    dotdots: nat, rest: seq<string>, dotdots': nat)
    returns (rest': seq<string>)
    requires Shape(original, path, end, dotdots) && Parts(original, path, end, dotdots, rest) && end > 0
    requires LastComponent(path, start, compEnd, end) && compEnd > start > before
    requires (forall i :: before <= i < start ==> path[i] == DELIM) && (before > 0 ==> path[before - 1] != DELIM)
    requires Removes(path[start..compEnd], dotdots, dotdots')
    ensures Parts(original, path[..before] + [DELIM] + path[end..], if before > 0 then before + 1
                  else 0, dotdots', rest')
  {
    hide NoDots, Components, ScanRight, Delims, Separated;
    SplitLast(path, start, compEnd, end);
    var comp := path[start..compEnd];
    rest' := [comp] + rest;
    ScanCons(comp, rest);
    DropDelims(path, before, start);
    assert Components(original) == Components(path[..before]) + rest' by {
      assert Components(path[..before]) + [comp] + rest == Components(path[..before]) + rest';
    }
    RemovedIsDot(original, comp, dotdots, dotdots', path);
    CloseGap(path[..before], path[end..]);
  }

  lemma DropDelims(path: string, before: nat, start: nat)
    requires before <= start <= |path| && forall i :: before <= i < start ==> path[i] == DELIM
    ensures Components(path[..start]) == Components(path[..before])
  {
    hide Components, Delims;
    DelimSlice(path, before, start);
    assert path[..start] == path[..before] + path[before..start];
    ComponentsConcat(path[..before], path[before..start]);
  }

  lemma CloseGap(kept: string, after: string)
    ensures var path := kept + [DELIM] + after;
      var pos := if |kept| > 0 then |kept| + 1 else 0;
      Components(path[..pos]) == Components(kept) && Components(path[pos..]) == Components(after)
  {
    hide Components, Delims;
    var path := kept + [DELIM] + after;
    DelimSlice([DELIM], 0, 1);
    assert [DELIM][0..1] == [DELIM];
    if |kept| > 0 {
      assert path[..|kept| + 1] == kept + [DELIM] && path[|kept| + 1..] == after;
      ComponentsConcat(kept, [DELIM]);
    } else {
      assert path[..0] == kept && path[0..] == [DELIM] + after;
      ComponentsConcat([DELIM], after);
    }
  }

  // The loops that move pos to the left over delimiters, and over anything else.
  method SkipDelims(path: string, pos: nat) returns (p: nat)
    requires pos <= |path|
    ensures p <= pos && (p > 0 ==> path[p - 1] != DELIM)
    ensures forall i :: p <= i < pos ==> path[i] == DELIM
  {
    p := pos;
    while p != 0 && path[p - 1] == DELIM
      invariant p <= pos
      invariant forall i :: p <= i < pos ==> path[i] == DELIM
    {
      p := p - 1;
    }
  }

  method SkipName(path: string, pos: nat) returns (p: nat)
    requires pos <= |path|
    ensures p <= pos && (p > 0 ==> path[p - 1] == DELIM)
    ensures forall i :: p <= i < pos ==> path[i] != DELIM
  {
    p := pos;
    while p != 0 && path[p - 1] != DELIM
      invariant p <= pos
      invariant forall i :: p <= i < pos ==> path[i] != DELIM
    {
      p := p - 1;
    }
  }

  // ---- delimiters in a row

  function Doubles(s: string): nat {
    if |s| < 2 then 0 else (if s[0] == DELIM && s[1] == DELIM then 1 else 0) + Doubles(s[1..])
  }

  lemma {:induction false} DoublesConcat(a: string, b: string)
    ensures Doubles(a + b) == Doubles(a) + Doubles(b) +
      if a != "" && b != "" && a[|a| - 1] == DELIM && b[0] == DELIM then 1 else 0
  {
    if a == "" {
      assert a + b == b;
    } else {
      DoublesConcat(a[1..], b);
      assert (a + b)[1..] == a[1..] + b;
    }
  }

  lemma DoublesCut(path: string, k: nat)
    requires k <= |path|
    ensures Doubles(path[..k]) <= Doubles(path) && Doubles(path[k..]) <= Doubles(path)
  {
    assert path == path[..k] + path[k..];
    DoublesConcat(path[..k], path[k..]);
  }

  // A single delimiter closes the gap a component leaves.
  lemma DoublesClosed(path: string, before: nat, end: nat)
    requires before < end <= |path| && (before > 0 ==> path[before - 1] != DELIM)
    requires end < |path| ==> path[end] != DELIM
    ensures Doubles(path[..before] + [DELIM] + path[end..]) <= Doubles(path)
  {
    hide Doubles;
    var kept, middle, after := path[..before], path[before..end], path[end..];
    assert path == kept + (middle + after);
    DoublesConcat(kept, middle + after);
    DoublesConcat(middle, after);
    DoublesConcat(kept, [DELIM]);
    DoublesConcat(kept + [DELIM], after);
    OneIsNotDouble();
  }

  lemma OneIsNotDouble()
    ensures Doubles([DELIM]) == 0
  {
  }

  lemma ScanStops(original: string, path: string, pos: nat, dotdots: nat, rest: seq<string>)
    requires Scanning(original, path, pos, dotdots, rest)
    ensures 0 < pos < |path| ==> path[pos] != DELIM
  {
  }

  // Components with one slash between any two, and one in front of an absolute path.
  function Slashed(comps: seq<string>): string {
    if comps == [] then "" else if |comps| == 1 then comps[0] else comps[0] + "/" + Slashed(comps[1..])
  }

  function Rendered(absolute: bool, comps: seq<string>): string {
    if comps == [] then "" else if absolute then "/" + Slashed(comps) else Slashed(comps)
  }

  lemma {:induction false} SlashedBack(s: string)
    requires s != "" && s[0] != DELIM && EndsOpen(s) && Doubles(s) == 0
    ensures Components(s) != [] && s == Slashed(Components(s))
    decreases |s|
  {
    hide Doubles, Slashed, Components, ComponentEnd, EndsOpen;
    var n := ComponentEnd(s);
    FirstEnds(s);
    if n == |s| {
      ComponentsOfOne(s);
      SlashedOne(s);
    } else {
      var u := s[n + 1..];
      FirstComponent(s, n);
      SlashedBack(u);
      SlashedMore(s[..n], Components(u));
      assert s == s[..n] + "/" + u;
    }
  }

  lemma FirstEnds(s: string)
    requires s != "" && s[0] != DELIM
    ensures ComponentEnd(s) > 0
  {
  }

  lemma SlashedOne(c: string)
    ensures Slashed([c]) == c
  {
  }

  lemma SlashedMore(c: string, comps: seq<string>)
    requires comps != []
    ensures Slashed([c] + comps) == c + "/" + Slashed(comps)
  {
    assert ([c] + comps)[1..] == comps;
  }

  lemma FirstComponent(s: string, n: nat)
    requires 0 < n < |s| && n == ComponentEnd(s) && EndsOpen(s) && Doubles(s) == 0
    ensures var u := s[n + 1..];
      && Components(s) == [s[..n]] + Components(u)
      && u != "" && u[0] != DELIM && EndsOpen(u) && Doubles(u) == 0
  {
    hide Doubles, Components;
    var u := s[n + 1..];
    assert s[..n] + "/" + u == s;
    SlashesSeparate(s[..n], u);
    assert '/' !in s[..n];
    SlashesSeparate("", s[..n]);
    DoublesConcat(s[..n] + "/", u);
    assert (s[..n] + "/")[n] == DELIM;
  }

  // A text without delimiters in a row, or at its end, is told by its components.
  lemma RenderedBack(s: string)
    requires EndsOpen(s) && Doubles(s) == 0
    ensures s == Rendered(Absolute(s), Components(s))
  {
    hide Doubles, Components, Slashed;
    if s == "" {
      SlashesSeparate("", "");
    } else if s[0] == DELIM {
      var u := s[1..];
      assert s == "/" + u;
      SlashFirst(u);
      DoublesConcat("/", u);
      SlashedBack(u);
    } else {
      SlashedBack(s);
    }
  }

  // The result's components are those of a stack evaluation, none of them "." or ".."; a path
  // without such components only loses its trailing delimiters.
  method RemoveRelativePathComponents(original: string) returns (result: string)
    ensures var value := Evaluate([], Components(original));
      if value.None? then result == "" else Components(result) == value.value
    ensures NoDots(Components(result)) && EndsOpen(result)
    ensures result != "" ==> (Absolute(result) <==> Absolute(original))
    ensures NoDots(Components(original)) && EndsOpen(original) ==> result == original
    // Nowhere are more delimiters put in a row; without any, the text is told by the evaluation.
    ensures Doubles(result) <= Doubles(original)
    ensures Doubles(original) == 0 ==>
      var value := Evaluate([], Components(original));
      result == if value.None? then "" else Rendered(Absolute(original), value.value)
  {
    hide Components, Evaluate, Scanning, NoDots, Removes, LastComponent, Doubles, Rendered;
    var path, pos: nat, dotdotCount: nat := original, |original|, 0;
    ghost var rest := [];
    ScanStarts(original);
    while pos != 0
      invariant pos <= |path| && Scanning(original, path, pos, dotdotCount, rest)
      invariant Doubles(path) <= Doubles(original)
      decreases pos
    {
      ScanStops(original, path, pos, dotdotCount, rest);
      var componentWithDelimEnd := pos;
      pos := SkipDelims(path, pos);
      var componentEnd := pos;
      pos := SkipName(path, pos);
      var componentStart := pos;
      assert LastComponent(path, componentStart, componentEnd, componentWithDelimEnd) by {
        IsLastComponent(path, componentStart, componentEnd, componentWithDelimEnd);
      }
      ScanHasComponent(original, path, componentStart, componentEnd, componentWithDelimEnd, dotdotCount, rest);

      var component := path[componentStart..componentEnd];
      var removeThisComponent := false;
      ghost var before := dotdotCount;
      if component == "." {
        removeThisComponent := true;
      } else if component == ".." {
        removeThisComponent := true;
        dotdotCount := dotdotCount + 1;
      } else if dotdotCount != 0 {
        removeThisComponent := true;
        dotdotCount := dotdotCount - 1;
      }

      if removeThisComponent {
        assert Removes(component, before, dotdotCount) by {
          RemovesBy(component, before, dotdotCount);
        }
        pos := SkipDelims(path, pos);
        if componentStart == 0 {
          assert component == path[..componentEnd];
          rest := RemoveFirst(original, path, componentEnd, componentWithDelimEnd, before, rest, dotdotCount);
          DoublesCut(path, componentWithDelimEnd);
          path := path[componentWithDelimEnd..];
        } else {
          rest := RemoveLater(original, path, pos, componentStart, componentEnd, componentWithDelimEnd, before, rest,
                              dotdotCount);
          DoublesClosed(path, pos, componentWithDelimEnd);
          path := path[..pos] + [DELIM] + path[componentWithDelimEnd..];
        }
        if pos > 0 {
          pos := pos + 1;
        }
      } else {
        rest := KeepComponent(original, path, componentStart, componentEnd, componentWithDelimEnd, rest);
      }
    }
    ScanFinished(original, path, dotdotCount, rest);
    NothingRendered(Absolute(original));
    if dotdotCount > 0 {
      return "";
    }

    pos := SkipDelims(path, |path|);
    result := path[..pos];
    StripEnd(path, pos);
    DoublesCut(path, pos);
    if Doubles(original) == 0 {
      RenderedBack(result);
    }
  }

  lemma NothingRendered(absolute: bool)
    ensures Doubles("") == 0 && Rendered(absolute, []) == Rendered(!absolute, []) == "" && Components("") == []
  {
  }

  lemma IsLastComponent(path: string, start: nat, compEnd: nat, end: nat)
    requires start <= compEnd <= end <= |path|
    requires (forall i :: compEnd <= i < end ==> path[i] == DELIM) && (compEnd > 0 ==> path[compEnd - 1] != DELIM)
    requires (forall i :: start <= i < compEnd ==> path[i] != DELIM) && (start > 0 ==> path[start - 1] == DELIM)
    ensures LastComponent(path, start, compEnd, end)
  {
  }

  lemma RemovesBy(comp: string, dotdots: nat, dotdots': nat)
    requires comp == "." ==> dotdots' == dotdots
    requires comp == ".." ==> dotdots' == dotdots + 1
    requires comp != "." && comp != ".." ==> dotdots != 0 && dotdots' == dotdots - 1
    ensures Removes(comp, dotdots, dotdots')
  {
  }

  lemma ScanStarts(original: string)
    ensures Scanning(original, original, |original|, 0, [])
  {
    assert original[..|original|] == original && original[|original|..] == "";
    ComponentsOfDelims("");
  }

  // While a ".." waits to be paid for, there is a component to the left.
  lemma ScanHasComponent(original: string, path: string, start: nat, compEnd: nat, end: nat, dotdots: nat,
                         rest: seq<string>)
    requires Scanning(original, path, end, dotdots, rest) && end > 0
    requires LastComponent(path, start, compEnd, end)
    ensures dotdots > 0 ==> compEnd > start
    ensures start > 0 ==> compEnd > start
  {
    if dotdots > 0 && compEnd < end {
      assert path[end - 1] == DELIM;
    }
  }

  // With the whole path read, its components are the evaluation, unless a ".." is left over.
  lemma ScanFinished(original: string, path: string, dotdots: nat, rest: seq<string>)
    requires Scanning(original, path, 0, dotdots, rest)
    ensures dotdots > 0 ==> Evaluate([], Components(original)).None?
    ensures dotdots == 0 ==> Evaluate([], Components(original)) == Some(Components(path)) && NoDots(Components(path))
    ensures path != "" ==> (Absolute(path) <==> Absolute(original))
    ensures NoDots(Components(original)) ==> path == original && dotdots == 0
    ensures NoDots(Components(""))
  {
    hide Components, Evaluate, ScanRight, NoDots;
    ComponentsOfDelims("");
    ScanKeepsNoDots([]);
    assert path[..0] == "" && path[0..] == path && [] + rest == rest;
    ScanIsEvaluation([], rest);
    ScanKeepsNoDots(rest);
    NothingHasNoDots();
    var none: seq<string> := [];
    assert none[..0] + Components(path) == Components(path);
  }

  lemma NothingHasNoDots()
    ensures NoDots([])
  {
  }

  lemma StripEnd(path: string, pos: nat)
    requires pos <= |path| && forall i :: pos <= i < |path| ==> path[i] == DELIM
    ensures Components(path[..pos]) == Components(path)
    ensures EndsOpen(path) ==> pos == |path|
  {
    DropDelims(path, pos, |path|);
    assert path[..|path|] == path;
  }

  // What was normalised stays as it is.
  method NormaliseTwice(path: string) returns (once: string, twice: string)
    ensures twice == once
  {
    once := RemoveRelativePathComponents(path);
    twice := RemoveRelativePathComponents(once);
  }
}
