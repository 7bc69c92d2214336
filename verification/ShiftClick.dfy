// A move to anywhere in a list (src/inventorymanager.cpp:270-323): a run of moves to single slots, each
// of which may return early and leave the count moved from the one before it (lines 325-357).

module ShiftClicks {
  import opened Arithmetic
  import opened Numbers
  import opened Options
  import opened Items
  import opened Stacks
  import opened Inventories
  import opened MoveRules

  // The slots the run reaches, the stack it moves, how many are left to be moved, how many the last
  // call moved, and whether the source's assertion on the two numbers has held so far.
  datatype Click = Click(items: seq<ItemStack>, source: ItemStack, left: u16, moved: nat, sound: bool)

  // The source slot if it is one of the slots reached; the callbacks and stack sizes.
  datatype Way = Way(home: Option<nat>, oneInventory: bool, answers: nat -> Answers, max: StackMax)

  ghost predicate AtHome(c: Click, w: Way) {
    w.home.Some? ==> w.home.value < |c.items| && c.items[w.home.value] == c.source
  }

  // apply returns early: there is nothing to move, or the slot is the source itself.
  predicate Early(c: Click, w: Way, j: nat) {
    c.source.Empty() || w.home == Some(j)
  }

  // What add_to does after the call, with 16-bit arithmetic.
  function Counted(c: Click): Click {
    c.(left := (c.left - c.moved) % 0x1_0000, sound := c.sound && c.moved <= c.left)
  }

  function Replaced(items: seq<ItemStack>, home: Option<nat>, s: ItemStack): (r: seq<ItemStack>)
    ensures |r| == |items|
  {
    if home.Some? && home.value < |items| then items[home.value := s] else items
  }

  // One slot is offered the stack.
  function Offered(c: Click, w: Way, j: nat): (r: Click)
    requires j < |c.items|
    ensures |r.items| == |c.items|
  {
    if Early(c, w, j) then c
    else
      var o := OutcomeOf(c.source, c.items[j], c.left, true, w.oneInventory, w.answers(j), w.max);
      var m := After(o, c.source, c.items[j], w.max);
      c.(items := Replaced(c.items, w.home, m.source)[j := m.dest], source := m.source, moved := Count(o))
  }

  function Visit(c: Click, w: Way, j: nat): (r: Click)
    requires j < |c.items|
    ensures |r.items| == |c.items|
  {
    Counted(Offered(c, w, j))
  }

  function Count(o: Outcome): nat {
    if o.MovedSome? then o.n else 0
  }

  // The two loops as one: n steps for the used slots, then n for the empty ones.
  function SlotOf(n: nat, t: nat): (j: nat)
    requires t < 2 * n
    ensures j < n
  {
    if t < n then t else t - n
  }

  predicate Reaches(c: Click, t: nat)
    requires t < 2 * |c.items|
  {
    c.items[SlotOf(|c.items|, t)].Empty() == (t >= |c.items|)
  }

  function Step(c: Click, w: Way, t: nat): (r: Click)
    requires t < 2 * |c.items|
    ensures |r.items| == |c.items|
  {
    if c.left > 0 && Reaches(c, t) then Visit(c, w, SlotOf(|c.items|, t)) else c
  }

  function Run(c: Click, w: Way, t: nat, end: nat): (r: Click)
    requires t <= end <= 2 * |c.items|
    ensures |r.items| == |c.items|
  {
    if t == end then c else Step(Run(c, w, t, end - 1), w, end - 1)
  }

  function All(c: Click, w: Way): Click {
    Run(c, w, 0, 2 * |c.items|)
  }

  lemma {:induction false} RunSplit(c: Click, w: Way, t: nat, u: nat, end: nat)
    requires t <= u <= end <= 2 * |c.items|
    ensures Run(c, w, t, end) == Run(Run(c, w, t, u), w, u, end)
    decreases end
  {
    hide Step;
    if u < end {
      RunSplit(c, w, t, u, end - 1);
    }
  }

  // What one more step of a loop does.
  lemma RunNext(c: Click, w: Way, t: nat, u: nat)
    requires t <= u < 2 * |c.items|
    ensures var p := Run(c, w, t, u);
      Run(c, w, t, u + 1) == if p.left > 0 && Reaches(p, u) then Visit(p, w, SlotOf(|c.items|, u)) else p
  {
    hide Visit;
  }

  lemma {:induction false} RunStops(c: Click, w: Way, t: nat, u: nat, end: nat)
    requires t <= u <= end <= 2 * |c.items| && Run(c, w, t, u).left == 0
    ensures Run(c, w, t, end) == Run(c, w, t, u)
  {
    hide Visit;
    if u < end {
      RunStops(c, w, t, u, end - 1);
    }
  }

  // ---- one visit

  lemma OutcomeBounded(s: ItemStack, d: ItemStack, left: u16, one: bool, a: Answers, max: StackMax)
    requires left > 0 && !s.Empty()
    ensures var o := OutcomeOf(s, d, left, true, one, a, max);
      && !o.Swapped? && Count(o) <= left && After(o, s, d, max).source.count + Count(o) == s.count
      && After(o, s, d, max).dest.count == d.count + Count(o)
  {
    AfterConserves(s, d, left, true, one, a, max, KindOf(s, true));
  }

  // A visit that is not early counts what it moves, and never more than is left.
  lemma VisitCounts(c: Click, w: Way, j: nat)
    requires c.left > 0 && j < |c.items| && !Early(c, w, j) && AtHome(c, w)
    ensures var r := Visit(c, w, j);
      && AtHome(r, w) && r.sound == c.sound && r.moved <= c.left && r.left == c.left - r.moved
      && r.source.count + r.moved == c.source.count && (r.items[j].Empty() ==> c.items[j].Empty())
  {
    hide OutcomeOf, After;
    OutcomeBounded(c.source, c.items[j], c.left, w.oneInventory, w.answers(j), w.max);
  }

  // An early visit moves nothing, and counts what was moved last.
  lemma EarlyCounts(c: Click, w: Way, j: nat)
    requires j < |c.items| && Early(c, w, j)
    ensures var r := Visit(c, w, j);
      r == c.(left := r.left, sound := r.sound) && (r.sound <==> c.sound && c.moved <= c.left)
    ensures c.moved <= c.left ==> Visit(c, w, j).left == c.left - c.moved
  {
  }

  // ---- nothing is lost or made

  function Stock(c: Click, w: Way, k: Kind): nat {
    Total(c.items, k) + if w.home.Some? then 0 else Amount(c.source, k)
  }

  lemma VisitConserves(c: Click, w: Way, j: nat, k: Kind)
    requires c.left > 0 && j < |c.items| && AtHome(c, w)
    ensures AtHome(Visit(c, w, j), w) && Stock(Visit(c, w, j), w, k) == Stock(c, w, k)
  {
    hide OutcomeOf, After, Amount, Total;
    if !Early(c, w, j) {
      var o := OutcomeOf(c.source, c.items[j], c.left, true, w.oneInventory, w.answers(j), w.max);
      var m := After(o, c.source, c.items[j], w.max);
      AfterConserves(c.source, c.items[j], c.left, true, w.oneInventory, w.answers(j), w.max, k);
      if w.home.Some? {
        TwoSlots(c.items, w.home.value, j, m.source, m.dest, k);
      } else {
        TotalUpdate(c.items, j, m.dest, k);
      }
    }
  }

  // Whatever is asked for and whatever the callbacks answer, in one list or between two.
  lemma {:induction false} ClickConserves(c: Click, w: Way, end: nat, k: Kind)
    requires AtHome(c, w) && end <= 2 * |c.items|
    ensures var r := Run(c, w, 0, end); AtHome(r, w) && Stock(r, w, k) == Stock(c, w, k)
  {
    hide Visit, Stock, AtHome;
    if end > 0 {
      ClickConserves(c, w, end - 1, k);
      var p := Run(c, w, 0, end - 1);
      if p.left > 0 && Reaches(p, end - 1) {
        VisitConserves(p, w, SlotOf(|c.items|, end - 1), k);
      }
    }
  }

  // ---- when the assertion holds

  // What is known of a run up to step t as long as its source is not used up: only the visit of the
  // source slot itself can be early.
  lemma {:induction false} BeforeUsedUp(c: Click, w: Way, t: nat)
    requires AtHome(c, w) && t <= 2 * |c.items|
    requires !Run(c, w, 0, t).source.Empty()
    ensures var r := Run(c, w, 0, t);
      && AtHome(r, w) && !c.source.Empty() && r.source.count <= c.source.count
      && (r.sound <==> c.sound && (w.home.Some? && w.home.value < t ==> SourceOk(Run(c, w, 0, w.home.value))))
  {
    hide Visit, SourceOk, AtHome;
    HomeOf(c, w, t);
    if t > 0 {
      var p := Run(c, w, 0, t - 1);
      HomeOf(c, w, t - 1);
      SourceShrinks(p, w, t - 1);
      BeforeUsedUp(c, w, t - 1);
      StepBeforeUsedUp(p, w, t - 1);
    }
  }

  // At the source slot, if it is reached, the last slot took no more than is then left.
  predicate SourceOk(c: Click) {
    c.left > 0 && !c.source.Empty() ==> c.moved <= c.left
  }

  lemma {:induction false} HomeOf(c: Click, w: Way, t: nat)
    requires AtHome(c, w) && t <= 2 * |c.items|
    ensures AtHome(Run(c, w, 0, t), w)
  {
    hide Visit, AtHome;
    if t > 0 {
      HomeOf(c, w, t - 1);
      HomeStays(Run(c, w, 0, t - 1), w, t - 1);
    }
  }

  lemma HomeStays(c: Click, w: Way, t: nat)
    requires AtHome(c, w) && t < 2 * |c.items|
    ensures AtHome(Step(c, w, t), w)
  {
    var j := SlotOf(|c.items|, t);
    if c.left > 0 && !Early(c, w, j) {
      hide Visit;
      VisitCounts(c, w, j);
    }
  }

  lemma SourceShrinks(c: Click, w: Way, t: nat)
    requires AtHome(c, w) && t < 2 * |c.items|
    ensures Step(c, w, t).source.count <= c.source.count
  {
    hide Visit, AtHome;
    var j := SlotOf(|c.items|, t);
    if c.left > 0 && Reaches(c, t) {
      if Early(c, w, j) {
        EarlyCounts(c, w, j);
      } else {
        VisitCounts(c, w, j);
      }
    }
  }

  lemma StepBeforeUsedUp(c: Click, w: Way, t: nat)
    requires AtHome(c, w) && t < 2 * |c.items| && !c.source.Empty()
    ensures Step(c, w, t).sound <==> c.sound && (w.home == Some(t) ==> SourceOk(c))
  {
    hide Visit;
    var j := SlotOf(|c.items|, t);
    if c.left > 0 && Reaches(c, t) {
      if Early(c, w, j) {
        EarlyCounts(c, w, j);
      } else {
        VisitCounts(c, w, j);
      }
    }
  }

  // The slots steps t and later reach, once there is nothing to move any more.
  function Ahead(items: seq<ItemStack>, t: nat): nat
    requires t <= 2 * |items|
    decreases 2 * |items| - t
  {
    if t == 2 * |items| then 0
    else (if items[SlotOf(|items|, t)].Empty() == (t >= |items|) then 1 else 0) + Ahead(items, t + 1)
  }

  // Counting m off left for each of k slots never takes more than there is.
  predicate Drains(left: nat, m: nat, k: nat) {
    m == 0 || left % m == 0 || k * m <= left
  }

  lemma DrainOne(left: nat, m: nat, k: nat)
    requires m > 0 && left > 0 && k > 0
    ensures Drains(left, m, k) <==> m <= left && (left == m || Drains(left - m, m, k - 1))
  {
    assert k * m == (k - 1) * m + m;
    if m <= left {
      LessOnce(left, m);
    } else {
      assert left % m == left;
      assert (k - 1) * m >= 0;
    }
  }

  lemma LessOnce(left: nat, m: nat)
    requires 0 < m <= left
    ensures (left - m) % m == left % m
  {
    var q, r := left / m, left % m;
    assert left - m == (q - 1) * m + r;
    DivMod(m, r, q - 1);
  }

  lemma {:induction false} UsedUp(c: Click, w: Way, t: nat)
    requires t <= 2 * |c.items| && c.source.Empty()
    ensures Run(c, w, t, 2 * |c.items|).sound <==>
      c.sound && (c.left > 0 ==> Drains(c.left, c.moved, Ahead(c.items, t)))
    decreases 2 * |c.items| - t
  {
    hide Visit, Drains, Run;
    var n := 2 * |c.items|;
    if t == n {
      NoneAhead(c.left, c.moved);
      RunNone(c, w, n);
    } else {
      var d := Step(c, w, t);
      RunFirst(c, w, t);
      if c.left > 0 && Reaches(c, t) {
        EarlyCounts(c, w, SlotOf(|c.items|, t));
        UsedUp(d, w, t + 1);
        DrainStep(c.left, c.moved, Ahead(c.items, t));
      } else {
        UsedUp(c, w, t + 1);
      }
    }
  }

  lemma NoneAhead(left: nat, m: nat)
    ensures Drains(left, m, 0)
  {
  }

  lemma DrainStep(left: nat, m: nat, k: nat)
    requires left > 0 && k > 0
    ensures Drains(left, m, k) <==> m <= left && (left - m > 0 ==> Drains(left - m, m, k - 1))
  {
    if m > 0 {
      DrainOne(left, m, k);
    }
  }

  lemma RunNone(c: Click, w: Way, t: nat)
    requires t <= 2 * |c.items|
    ensures Run(c, w, t, t) == c
  {
  }

  lemma RunFirst(c: Click, w: Way, t: nat)
    requires t < 2 * |c.items|
    ensures Run(c, w, t, 2 * |c.items|) == Run(Step(c, w, t), w, t + 1, 2 * |c.items|)
  {
    hide Step;
    RunSplit(c, w, t, t + 1, 2 * |c.items|);
    RunNone(c, w, t);
  }

  // t is the first step before which the source is used up.
  ghost predicate FirstUsedUp(c: Click, w: Way, t: nat) {
    t <= 2 * |c.items| && Run(c, w, 0, t).source.Empty() && (t > 0 ==> !Run(c, w, 0, t - 1).source.Empty())
  }

  // The assertion holds throughout exactly if it holds at the source slot, and what is left when
  // the source is used up can be counted off in amounts of what was moved last.
  lemma SoundExactly(c: Click, w: Way)
    requires AtHome(c, w) && c.sound
    ensures All(c, w).sound <==>
      && (w.home.Some? ==> SourceOk(Run(c, w, 0, w.home.value)))
      && forall t: nat {:trigger FirstUsedUp(c, w, t)} :: FirstUsedUp(c, w, t) ==>
        var r := Run(c, w, 0, t); r.left > 0 ==> Drains(r.left, r.moved, Ahead(r.items, t))
  {
    hide AtHome, Run, Step, SourceOk, Drains, Ahead;
    HomeInside(c, w);
    var end := 2 * |c.items|;
    if Run(c, w, 0, end).source.Empty() {
      var t := FindFirst(c, w, end);
      SoundFrom(c, w, t);
      forall u: nat | FirstUsedUp(c, w, u)
        ensures u == t
      {
        FirstOnce(c, w, t, u);
      }
    } else {
      BeforeUsedUp(c, w, end);
      forall u: nat | FirstUsedUp(c, w, u)
        ensures false
      {
        StaysUsedUp(c, w, u, end);
      }
    }
  }

  lemma HomeInside(c: Click, w: Way)
    requires AtHome(c, w)
    ensures w.home.Some? ==> w.home.value < |c.items|
  {
  }

  lemma {:induction false} StaysUsedUp(c: Click, w: Way, t: nat, end: nat)
    requires AtHome(c, w) && t <= end <= 2 * |c.items| && Run(c, w, 0, t).source.Empty()
    ensures Run(c, w, 0, end).source.Empty()
  {
    hide AtHome, Step;
    if t < end {
      StaysUsedUp(c, w, t, end - 1);
      HomeOf(c, w, end - 1);
      SourceShrinks(Run(c, w, 0, end - 1), w, end - 1);
    }
  }

  lemma {:induction false} FindFirst(c: Click, w: Way, end: nat) returns (t: nat)
    requires AtHome(c, w) && end <= 2 * |c.items| && Run(c, w, 0, end).source.Empty()
    ensures t <= end && FirstUsedUp(c, w, t)
  {
    hide AtHome, Run;
    if end > 0 && Run(c, w, 0, end - 1).source.Empty() {
      t := FindFirst(c, w, end - 1);
    } else {
      t := end;
    }
  }

  lemma FirstOnce(c: Click, w: Way, t: nat, u: nat)
    requires AtHome(c, w) && FirstUsedUp(c, w, t) && FirstUsedUp(c, w, u)
    ensures t == u
  {
    hide AtHome, Run;
    if t < u {
      StaysUsedUp(c, w, t, u - 1);
    } else if u < t {
      StaysUsedUp(c, w, u, t - 1);
    }
  }

  // When the source is used up, only the visit of its own slot can have failed the assertion.
  lemma SoundUntil(c: Click, w: Way, t: nat)
    requires AtHome(c, w) && c.sound && FirstUsedUp(c, w, t)
    ensures Run(c, w, 0, t).sound <==>
      (w.home.Some? && w.home.value < 2 * |c.items| ==> SourceOk(Run(c, w, 0, w.home.value)))
  {
    hide AtHome, Step;
    HomeInside(c, w);
    if w.home.Some? && t <= w.home.value {
      StaysUsedUp(c, w, t, w.home.value);
    }
    if t > 0 {
      HomeOf(c, w, t - 1);
      BeforeUsedUp(c, w, t - 1);
      StepBeforeUsedUp(Run(c, w, 0, t - 1), w, t - 1);
    }
  }

  lemma SoundFrom(c: Click, w: Way, t: nat)
    requires AtHome(c, w) && c.sound && FirstUsedUp(c, w, t)
    ensures var r := Run(c, w, 0, t);
      All(c, w).sound <==>
        && (w.home.Some? && w.home.value < 2 * |c.items| ==> SourceOk(Run(c, w, 0, w.home.value)))
        && (r.left > 0 ==> Drains(r.left, r.moved, Ahead(r.items, t)))
  {
    hide AtHome, Step, Drains, Ahead, SourceOk;
    RunSplit(c, w, 0, t, 2 * |c.items|);
    UsedUp(Run(c, w, 0, t), w, t);
    SoundUntil(c, w, t);
  }

  // What is moved and what is left never exceed what was asked for while the assertion holds.
  lemma {:induction false} TakenWithin(c: Click, w: Way, t: nat)
    requires AtHome(c, w) && t <= 2 * |c.items|
    ensures var r := Run(c, w, 0, t);
      && r.source.count <= c.source.count && (r.sound ==> c.sound)
      && (r.sound ==> c.source.count - r.source.count + r.left <= c.left)
      && (r.sound && c.left <= c.source.count ==> r.left <= r.source.count)
  {
    hide Step, AtHome;
    if t > 0 {
      TakenWithin(c, w, t - 1);
      HomeOf(c, w, t - 1);
      StepTakes(Run(c, w, 0, t - 1), w, t - 1);
    }
  }

  lemma StepTakes(c: Click, w: Way, t: nat)
    requires AtHome(c, w) && t < 2 * |c.items|
    ensures var r := Step(c, w, t);
      && r.source.count <= c.source.count && (r.sound ==> c.sound)
      && (r.sound ==> r.left <= c.left && c.source.count - r.source.count <= c.left - r.left)
  {
    hide Visit, AtHome;
    var j := SlotOf(|c.items|, t);
    if c.left > 0 && Reaches(c, t) {
      if Early(c, w, j) {
        EarlyCounts(c, w, j);
      } else {
        VisitCounts(c, w, j);
      }
    }
  }

  // From one list to another no more is ever moved than was asked for; within one list that is so
  // while the assertion holds.
  lemma AtMostRequested(c: Click, w: Way)
    requires AtHome(c, w) && c.sound
    ensures All(c, w).source.count <= c.source.count
    ensures w.home.None? || All(c, w).sound ==> c.source.count - All(c, w).source.count <= c.left
  {
    hide AtHome, Step, Run;
    var end := 2 * |c.items|;
    TakenWithin(c, w, end);
    if w.home.None? {
      if All(c, w).source.Empty() {
        var t := FindFirst(c, w, end);
        SoundUntil(c, w, t);
        TakenWithin(c, w, t);
      } else {
        BeforeUsedUp(c, w, end);
      }
    }
  }

  // With no more asked for than the stack holds, only the source slot itself can fail the assertion,
  // and between two lists nothing can.
  lemma UpToTheStack(c: Click, w: Way)
    requires AtHome(c, w) && c.sound && c.left <= c.source.count
    ensures All(c, w).sound <==> (w.home.Some? ==> SourceOk(Run(c, w, 0, w.home.value)))
  {
    hide AtHome, Step, Run, SourceOk, Drains, Ahead;
    HomeInside(c, w);
    SoundExactly(c, w);
    if w.home.Some? ==> SourceOk(Run(c, w, 0, w.home.value)) {
      forall t: nat | FirstUsedUp(c, w, t)
        ensures Run(c, w, 0, t).left == 0
      {
        SoundUntil(c, w, t);
        TakenWithin(c, w, t);
      }
    }
  }

  // ---- callbacks that allow everything

  ghost predicate Permissive(answers: nat -> Answers) {
    forall i: nat :: answers(i).take >= 0xFFFF && answers(i).put >= 0xFFFF
  }

  lemma SlotIsAdd(s: ItemStack, d: ItemStack, left: u16, one: bool, a: Answers, max: StackMax)
    requires 0 < left <= s.count && a.take >= 0xFFFF && a.put >= 0xFFFF
    ensures var item := s.(count := left);
      var o := OutcomeOf(s, d, left, true, one, a, max);
      var m, r := After(o, s, d, max), AddToStack(d, item, max);
      && m.dest == r.stack && r.rest.count == left - Count(o)
      && (r.rest.count > 0 ==> r.rest == m.source.(count := r.rest.count))
  {
    var item := s.(count := left);
    assert Requested(s, left) == item;
    FitsIs(d, item, max);
    FitsForetells(d, item, max);
    var n := Fits(d, item, max);
    if n > 0 {
      WhatFitsMoves(s, d, left, n, max);
      AddSame(s, d, n, left, max);
    }
  }

  // Adding only what fits gives the same stack as adding all.
  lemma AddSame(s: ItemStack, d: ItemStack, n: nat, left: u16, max: StackMax)
    requires 0 < n <= left <= s.count && n == Fits(d, s.(count := left), max)
    ensures var m, r := MoveSlots(s, d, n, false, max), AddToStack(d, s.(count := left), max);
      m.dest == r.stack && (r.rest.count > 0 ==> r.rest == m.source.(count := r.rest.count))
  {
  }

  // The item addItem would still have to add.
  predicate Adds(c: Click, item: ItemStack) {
    c.left <= c.source.count && item.count == c.left && (c.left > 0 ==> item == c.source.(count := c.left))
  }

  lemma StepAdds(was: seq<ItemStack>, c: Click, w: Way, t: nat, item0: ItemStack, item: ItemStack)
    returns (next: ItemStack)
    requires w.home.None? && Permissive(w.answers) && t < 2 * |c.items| && Adds(c, item)
    requires Adding(was, c.items, SlotOf(|c.items|, t), item0, item, w.max, t < |c.items|)
    ensures Adds(Step(c, w, t), next)
    ensures c.left > 0 ==> Adding(was, Step(c, w, t).items, SlotOf(|c.items|, t) + 1, item0, next, w.max, t < |c.items|)
    ensures c.left == 0 ==> next == item && Step(c, w, t) == c
  {
    hide Adding, OutcomeOf, After, AddToStack, Permissive;
    var j := SlotOf(|c.items|, t);
    next := item;
    if c.left > 0 {
      AddingStep(was, c.items, j, item0, item, w.max, t < |c.items|);
      if Reaches(c, t) {
        OutcomeBounded(c.source, c.items[j], c.left, w.oneInventory, w.answers(j), w.max);
        PermissiveAt(w.answers, j);
        SlotIsAdd(c.source, c.items[j], c.left, w.oneInventory, w.answers(j), w.max);
        next := AddToStack(c.items[j], item, w.max).rest;
      } else {
        assert c.items[j := c.items[j]] == c.items;
      }
    }
  }

  lemma PermissiveAt(answers: nat -> Answers, i: nat)
    requires Permissive(answers)
    ensures answers(i).take >= 0xFFFF && answers(i).put >= 0xFFFF
  {
  }

  // One of the two loops does what the same loop of addItem does.
  lemma {:induction false} PassAdds(was: seq<ItemStack>, c: Click, w: Way, start: nat, j: nat, item0: ItemStack)
      returns (item: ItemStack)
    requires w.home.None? && Permissive(w.answers) && Adds(c, item0) && c.items == was && j <= |was|
    requires start == 0 || start == |was|
    ensures var r := Run(c, w, start, start + j);
      && Adds(r, item)
      && (Adding(was, r.items, j, item0, item, w.max, start == 0)
        || (r.left == 0 && AddPass(was, item0, w.max, start == 0) == ListAdded(r.items, item)))
  {
    hide Adding, AddPass, Step, Permissive, Adds;
    if j == 0 {
      item := item0;
      AddingStarts(was, item0, w.max, start == 0);
    } else {
      item := PassAdds(was, c, w, start, j - 1, item0);
      var r := Run(c, w, start, start + j - 1);
      if Adding(was, r.items, j - 1, item0, item, w.max, start == 0) {
        if r.left == 0 {
          AddsNothing(r, item);
          AddingEnds(was, r.items, j - 1, item0, item, w.max, start == 0);
        }
        item := StepAdds(was, r, w, start + j - 1, item0, item);
      } else {
        StepNothing(r, w, start + j - 1);
      }
    }
  }

  lemma AddsNothing(c: Click, item: ItemStack)
    requires Adds(c, item)
    ensures item.Empty() <==> c.left == 0
  {
  }

  lemma StepNothing(c: Click, w: Way, t: nat)
    requires c.left == 0 && t < 2 * |c.items|
    ensures Step(c, w, t) == c
  {
  }

  lemma PassIsAddPass(c: Click, w: Way, start: nat, item0: ItemStack) returns (item: ItemStack)
    requires w.home.None? && Permissive(w.answers) && Adds(c, item0) && (start == 0 || start == |c.items|)
    ensures var r := Run(c, w, start, start + |c.items|);
      Adds(r, item) && AddPass(c.items, item0, w.max, start == 0) == ListAdded(r.items, item)
  {
    hide Adding, AddPass, Run, Permissive, Adds;
    item := PassAdds(c.items, c, w, start, |c.items|, item0);
    var r := Run(c, w, start, start + |c.items|);
    if Adding(c.items, r.items, |c.items|, item0, item, w.max, start == 0) {
      AddingEnds(c.items, r.items, |c.items|, item0, item, w.max, start == 0);
    }
  }

  // A move to anywhere in another list that the callbacks allow does to the list what addItem does.
  lemma ClickIsAddToList(c: Click, w: Way)
    requires w.home.None? && Permissive(w.answers) && 0 < c.left <= c.source.count
    ensures var r, a := All(c, w), AddToList(c.items, c.source.(count := c.left), w.max);
      r.items == a.items && r.left == a.rest.count
  {
    hide AddPass, Run, Permissive;
    var item := c.source.(count := c.left);
    var n := |c.items|;
    var rest := PassIsAddPass(c, w, 0, item);
    var r := Run(c, w, 0, n);
    var last := PassIsAddPass(r, w, n, rest);
    RunSplit(c, w, 0, n, 2 * n);
    if n == 0 {
      NoSlots(c, w, item);
    }
  }

  lemma NoSlots(c: Click, w: Way, item: ItemStack)
    requires c.items == []
    ensures All(c, w) == c && AddToList(c.items, item, w.max) == ListAdded([], item)
  {
  }

  // ---- a run that moves more than it was asked for

  function Stack99(n: u16): ItemStack {
    if n == 0 then NO_ITEM else ItemStack("a", n, 0, map[])
  }

  function AllowAll(): nat -> Answers {
    (i: nat) => Answers(0xFFFF, 0xFFFF, 0xFFFF, 0xFFFF)
  }

  const OWN_LIST := Way(Some(1), true, AllowAll(), (name: string) => 99)

  // Stacks of one kind that hold at most 99: as many move as are there, are asked for and fit.
  lemma OneKind(s: u16, d: u16, left: u16)
    requires s > 0 && left > 0 && 0 < d <= 99
    ensures var n := Min(99 - d, Min(s, left));
      var o := OutcomeOf(Stack99(s), Stack99(d), left, true, true, AllowAll()(0), (name: string) => 99);
      && Count(o) == n
      && After(o, Stack99(s), Stack99(d), (name: string) => 99).source == Stack99(s - n)
      && After(o, Stack99(s), Stack99(d), (name: string) => 99).dest == Stack99(d + n)
  {
  }

  lemma OneKindVisit(a: u16, b: u16, d: u16, e: u16, left: u16, moved: nat, sound: bool, j: nat)
    requires b > 0 && left > 0 && 0 < a <= 99 && 0 < d <= 99 && 0 < e <= 99 && j < 4 && j != 1
    ensures var x := if j == 0 then a else if j == 2 then d else e;
      var n := Min(99 - x, Min(b, left));
      Visit(Click([Stack99(a), Stack99(b), Stack99(d), Stack99(e)], Stack99(b), left, moved, sound), OWN_LIST, j)
        == Click([Stack99(if j == 0 then a + n else a), Stack99(b - n), Stack99(if j == 2 then d + n else d),
                  Stack99(if j == 3 then e + n else e)], Stack99(b - n), left - n, n, sound)
  {
    hide OutcomeOf, After, Stack99;
    Shown(b);
    OneKind(b, if j == 0 then a else if j == 2 then d else e, left);
  }

  lemma Shown(n: u16)
    ensures (Stack99(n).Empty() <==> n == 0) && Stack99(0) == NO_ITEM
  {
  }

  // 5 of 10 items are asked for, to be moved within the list that holds them: all 10 are, and the count
  // wraps around.
  lemma MoreThanRequested()
    ensures var c := Click([Stack99(95), Stack99(10), Stack99(95), Stack99(95)], Stack99(10), 5, 0, true);
      var r := All(c, OWN_LIST);
      AtHome(c, OWN_LIST) && r.source.Empty() && !r.sound && r.left == 65525
      && r.items == [Stack99(99), NO_ITEM, Stack99(99), Stack99(97)]
  {
    hide Visit, Stack99;
    Shown(95);
    Shown(99);
    Shown(97);
    Shown(10);
    Shown(6);
    Shown(2);
    Shown(0);
    var w := OWN_LIST;
    var c0 := Click([Stack99(95), Stack99(10), Stack99(95), Stack99(95)], Stack99(10), 5, 0, true);
    OneKindVisit(95, 10, 95, 95, 5, 0, true, 0);
    var c1 := Click([Stack99(99), Stack99(6), Stack99(95), Stack99(95)], Stack99(6), 1, 4, true);
    assert Step(c0, w, 0) == c1;
    EarlyIs(c1, w, 1);
    var c2 := c1.(left := 65533, sound := false);
    assert Step(c1, w, 1) == c2;
    OneKindVisit(99, 6, 95, 95, 65533, 4, false, 2);
    var c3 := Click([Stack99(99), Stack99(2), Stack99(99), Stack99(95)], Stack99(2), 65529, 4, false);
    assert Step(c2, w, 2) == c3;
    OneKindVisit(99, 2, 99, 95, 65529, 4, false, 3);
    var c4 := Click([Stack99(99), Stack99(0), Stack99(99), Stack99(97)], Stack99(0), 65527, 2, false);
    assert Step(c3, w, 3) == c4;
    EarlyIs(c4, w, 1);
    var c5 := c4.(left := 65525);
    assert Step(c4, w, 4) == c4 && Step(c4, w, 5) == c5 && Step(c5, w, 6) == c5 && Step(c5, w, 7) == c5;
    EightSteps(c0, w, c1, c2, c3, c4, c5);
  }

  lemma EarlyIs(c: Click, w: Way, j: nat)
    requires j < |c.items| && Early(c, w, j)
    ensures Visit(c, w, j) == Counted(c)
  {
  }

  lemma EightSteps(c0: Click, w: Way, c1: Click, c2: Click, c3: Click, c4: Click, c5: Click)
    requires |c0.items| == |c1.items| == |c2.items| == |c3.items| == |c4.items| == |c5.items| == 4
    requires c1 == Step(c0, w, 0) && c2 == Step(c1, w, 1) && c3 == Step(c2, w, 2) && c4 == Step(c3, w, 3)
    requires c4 == Step(c4, w, 4) && c5 == Step(c4, w, 5) && c5 == Step(c5, w, 6) && c5 == Step(c5, w, 7)
    ensures All(c0, w) == c5
  {
    hide Step;
    assert Run(c0, w, 0, 1) == c1 && Run(c0, w, 0, 2) == c2 && Run(c0, w, 0, 3) == c3;
    assert Run(c0, w, 0, 4) == c4 && Run(c0, w, 0, 5) == c4 && Run(c0, w, 0, 6) == c5 && Run(c0, w, 0, 7) == c5;
  }
}
