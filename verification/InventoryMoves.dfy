// The action of moving items between inventories (src/inventorymanager.cpp:141-600).

module MoveRules {
  import opened Numbers
  import opened Items
  import opened Stacks

  // The stack asked for: all of the source, or at most count of it.
  function Requested(s: ItemStack, count: u16): ItemStack {
    if count > 0 && count < s.count then s.(count := count) else s
  }

  // How many of item the slot would take.
  function Fits(d: ItemStack, item: ItemStack, max: StackMax): (n: nat) {
    AddKinds(d, item, max);
    FitsForetells(d, item, max);
    item.count - LeftOver(d, item, max).count
  }

  lemma FitsIs(d: ItemStack, item: ItemStack, max: StackMax)
    ensures LeftOver(d, item, max).count + Fits(d, item, max) == item.count
  {
    AddKinds(d, item, max);
    FitsForetells(d, item, max);
  }

  lemma FitsWithin(s: ItemStack, d: ItemStack, count: u16, max: StackMax)
    ensures Fits(d, Requested(s, count), max) <= Requested(s, count).count <= s.count
  {
  }

  lemma NothingFits(d: ItemStack, item: ItemStack, max: StackMax)
    requires !item.Empty() && LeftOver(d, item, max).count == item.count
    ensures !d.Empty()
  {
  }

  lemma RequestedEmpty(s: ItemStack, count: u16)
    ensures Requested(s, count).Empty() <==> s.Empty()
  {
  }

  // As many as were foretold to fit are moved, without a swap.
  lemma WhatFitsMoves(s: ItemStack, d: ItemStack, count: u16, n: nat, max: StackMax)
    requires !s.Empty() && 0 < n <= Fits(d, Requested(s, count), max)
    ensures var m := MoveSlots(s, d, n, false, max); !m.didSwap && m.moved.count == n
    ensures n <= s.count && (count > 0 ==> n <= count)
  {
    var src := Requested(s, count);
    assert src.count <= s.count && SameKind(src, s);
    var t := TakeForMove(s, n);
    assert t.taken.count == n && SameKind(t.taken, s);
    assert AddToStack(d, t.taken, max).rest.Empty();
  }

  // If not one of the requested items fits, nothing of the whole stack does, and the two stacks
  // change places.
  lemma WhatDoesNotFitSwaps(s: ItemStack, d: ItemStack, count: u16, n: nat, max: StackMax)
    requires !s.Empty() && n > 0 && Fits(d, Requested(s, count), max) == 0
    ensures !LeftOver(d, Requested(s, count), max).Empty()
    ensures !d.Empty() && MoveSlots(s, d, n, true, max) == Moved(d, s, s, true)
  {
    var t := TakeForMove(s, n);
    assert !t.taken.Empty() && SameKind(t.taken, s);
    assert AddToStack(d, t.taken, max).rest == t.taken;
    PutBack(s, d, n, max);
  }

  // ---- what a call comes to

  // The answers of the callbacks for the items moved and for those a swap would send back. None
  // is the mark of an infinite source or destination.
  datatype Answers = Answers(take: nat, put: nat, takeBack: nat, putBack: nat)

  datatype Outcome = Nothing | MovedSome(n: nat) | Swapped

  function Min(a: nat, b: nat): nat {
    if a < b then a else b
  }

  // Within one inventory a single callback is asked for each direction.
  predicate SwapAllowed(s: ItemStack, d: ItemStack, oneInventory: bool, a: Answers) {
    a.take >= s.count && a.putBack >= d.count && (oneInventory || (a.put >= s.count && a.takeBack >= d.count))
  }

  // As many as fit and are allowed; where nothing fits, a swap if it is allowed, but not for a
  // move to anywhere.
  function OutcomeOf(s: ItemStack, d: ItemStack, count: u16, toAnywhere: bool, oneInventory: bool, a: Answers,
                     max: StackMax)
    : Outcome
  {
    var fit := Fits(d, Requested(s, count), max);
    if fit > 0 then
      var n := Min(fit, if oneInventory then a.take else Min(a.take, a.put));
      if n == 0 then Nothing else MovedSome(n)
    else if !toAnywhere && SwapAllowed(s, d, oneInventory, a) then Swapped
    else Nothing
  }

  // The least of what fits and what is answered.
  predicate AsManyAs(n: nat, fit: nat, one: bool, a: Answers) {
    && n <= fit && n <= a.take && (one || n <= a.put)
    && (n == fit || n == a.take || (!one && n == a.put))
  }

  // No more than a callback answered leaves its inventory or enters it, in either direction; and
  // no less is moved than fits and all that were asked allow.
  lemma WithinAnswers(s: ItemStack, d: ItemStack, count: u16, toAnywhere: bool, one: bool, a: Answers, max: StackMax)
    ensures var o, fit := OutcomeOf(s, d, count, toAnywhere, one, a, max), Fits(d, Requested(s, count), max);
      match o
      case Swapped =>
        fit == 0 && s.count <= a.take && d.count <= a.putBack && (one || (s.count <= a.put && d.count <= a.takeBack))
      case MovedSome(n) => AsManyAs(n, fit, one, a) && n > 0
      case Nothing =>
        if fit > 0 then AsManyAs(0, fit, one, a)
        else (toAnywhere || a.take < s.count || a.putBack < d.count
              || (!one && (a.put < s.count || a.takeBack < d.count)))
  {
  }

  // The two slots afterwards.
  function After(outcome: Outcome, s: ItemStack, d: ItemStack, max: StackMax): Moved {
    match outcome
    case Nothing => Moved(s, d, NO_ITEM, false)
    case MovedSome(n) => MoveSlots(s, d, n, false, max)
    case Swapped => Moved(d, s, s, true)
  }

  lemma AfterConserves(s: ItemStack, d: ItemStack, count: u16, toAnywhere: bool, oneInventory: bool, a: Answers,
                       max: StackMax, k: Kind)
    requires !s.Empty()
    ensures var o := OutcomeOf(s, d, count, toAnywhere, oneInventory, a, max);
      var m := After(o, s, d, max);
      && Amount(m.source, k) + Amount(m.dest, k) == Amount(s, k) + Amount(d, k)
      && (o.MovedSome? ==>
          (count > 0 ==> o.n <= count) && m.source.count + o.n == s.count && m.dest.count == d.count + o.n)
  {
    hide MoveSlots, Fits, Requested;
    var o := OutcomeOf(s, d, count, toAnywhere, oneInventory, a, max);
    if o.MovedSome? {
      WhatFitsMoves(s, d, count, o.n, max);
      MoveSlotsConserves(s, d, o.n, false, max, k);
      MoveSlotsMoves(s, d, o.n, false, max);
    }
  }

  // ---- two slots of one or two lists

  lemma TwoSlots(items: seq<ItemStack>, i: nat, j: nat, s: ItemStack, d: ItemStack, k: Kind)
    requires i < |items| && j < |items| && i != j
    requires Amount(s, k) + Amount(d, k) == Amount(items[i], k) + Amount(items[j], k)
    ensures Total(items[i := s][j := d], k) == Total(items, k)
  {
    TotalUpdate(items, i, s, k);
    TotalUpdate(items[i := s], j, d, k);
  }

  // A move between two slots, of one list or of two, keeps the number of items of every kind.
  lemma SlotMoveConserves(was: seq<ItemStack>, i: nat, wasTo: seq<ItemStack>, j: nat, count: u16, toAnywhere: bool,
                          oneInventory: bool, a: Answers, max: StackMax, k: Kind)
    requires i < |was| && j < |wasTo| && !was[i].Empty()
    ensures var m := After(OutcomeOf(was[i], wasTo[j], count, toAnywhere, oneInventory, a, max), was[i], wasTo[j], max);
      && Total(was[i := m.source], k) + Total(wasTo[j := m.dest], k) == Total(was, k) + Total(wasTo, k)
      && (was == wasTo && i != j ==> Total(was[i := m.source][j := m.dest], k) == Total(was, k))
  {
    hide OutcomeOf, After;
    var m := After(OutcomeOf(was[i], wasTo[j], count, toAnywhere, oneInventory, a, max), was[i], wasTo[j], max);
    AfterConserves(was[i], wasTo[j], count, toAnywhere, oneInventory, a, max, k);
    TotalUpdate(was, i, m.source, k);
    TotalUpdate(wasTo, j, m.dest, k);
    if was == wasTo && i != j {
      TwoSlots(was, i, j, m.source, m.dest, k);
    }
  }

  // s16 arithmetic on the size of a list.
  function ToS16(n: nat): (r: int)
    ensures r <= n && -0x8000 <= r < 0x8000 && (n - r) % 0x1_0000 == 0
  {
    if n % 0x1_0000 < 0x8000 then n % 0x1_0000 else n % 0x1_0000 - 0x1_0000
  }
}

module InventoryMoves {
  import opened Numbers
  import opened Items
  import opened Stacks
  import opened Inventories
  import opened MoveRules
  import opened Options
  import opened ShiftClicks

  class IMoveAction {
    var fromInv: nat
    var fromList: InventoryList
    var fromI: int
    var toInv: nat
    var toList: InventoryList
    var toI: int
    var count: u16
    var moveSomewhere: bool
    var causedByMoveSomewhere: bool
    var moveCount: nat

    ghost predicate InRange()
      reads this, fromList, toList
    {
      0 <= fromI < |fromList.items| && 0 <= toI < |toList.items| && (fromList != toList || fromI != toI)
    }

    constructor (fromInv: nat, fromList: InventoryList, fromI: int, toInv: nat, toList: InventoryList, toI: int,
                 count: u16, moveSomewhere: bool)
    {
      this.fromInv, this.fromList, this.fromI := fromInv, fromList, fromI;
      this.toInv, this.toList, this.toI := toInv, toList, toI;
      this.count, this.moveSomewhere, causedByMoveSomewhere, moveCount := count, moveSomewhere, false, 0;
    }

    method SwapDirections()
      modifies this
      ensures fromInv == old(toInv) && fromList == old(toList) && fromI == old(toI)
      ensures toInv == old(fromInv) && toList == old(fromList) && toI == old(fromI)
      ensures count == old(count) && moveCount == old(moveCount)
      ensures moveSomewhere == old(moveSomewhere) && causedByMoveSomewhere == old(causedByMoveSomewhere)
    {
      fromInv, toInv := toInv, fromInv;
      fromList, toList := toList, fromList;
      fromI, toI := toI, fromI;
    }

    // What the callbacks allow of a stack; a swap needs the way back to be allowed too.
    method AskCallbacks(item: ItemStack, back: ItemStack, swapWanted: bool, a: Answers)
      returns (take: nat, put: nat, allowSwap: bool)
      modifies this
      ensures fromInv == old(fromInv) && fromList == old(fromList) && fromI == old(fromI)
      ensures toInv == old(toInv) && toList == old(toList) && toI == old(toI)
      ensures count == old(count) && moveCount == old(moveCount)
      ensures moveSomewhere == old(moveSomewhere) && causedByMoveSomewhere == old(causedByMoveSomewhere)
      ensures allowSwap <==> swapWanted && SwapAllowed(item, back, fromInv == toInv, a)
      ensures allowSwap ==> take >= item.count && (put >= item.count || put >= back.count)
      ensures swapWanted && !allowSwap ==> take == 0 && put == 0
      ensures !swapWanted ==> take == a.take && put == if fromInv == toInv then a.take else a.put
    {
      allowSwap := swapWanted;
      if fromInv == toInv {
        take := a.take;
        allowSwap := allowSwap && take >= item.count;
        if allowSwap {
          SwapDirections();
          put := a.putBack;
          allowSwap := allowSwap && put >= back.count;
          SwapDirections();
        } else {
          put := take;
        }
      } else {
        put := a.put;
        take := a.take;
        allowSwap := allowSwap && take >= item.count && put >= item.count;
        if allowSwap {
          SwapDirections();
          var takeBack := a.takeBack;
          var putBack := a.putBack;
          allowSwap := allowSwap && takeBack >= back.count && putBack >= back.count;
          SwapDirections();
        }
      }
      if swapWanted != allowSwap {
        take, put := 0, 0;
      }
    }

    // Everything but the count moved.
    ghost predicate SameAction(fromInv': nat, fromList': InventoryList, fromI': int, toInv': nat,
                               toList': InventoryList,
                               toI': int, count': u16, caused': bool)
      reads this
    {
      && fromInv == fromInv' && fromList == fromList' && fromI == fromI'
      && toInv == toInv' && toList == toList' && toI == toI' && count == count' && causedByMoveSomewhere == caused'
    }

    ghost function Expected(was: seq<ItemStack>, wasTo: seq<ItemStack>, a: Answers): Outcome
      requires 0 <= fromI < |was| && 0 <= toI < |wasTo|
      reads this, toList
    {
      OutcomeOf(was[fromI], wasTo[toI], count, causedByMoveSomewhere, fromInv == toInv, a, toList.max)
    }

    // apply with both slots given.
    method MoveToSlot(a: Answers)
      modifies this, fromList, toList
      ensures SameAction(old(fromInv), old(fromList), old(fromI), old(toInv), old(toList), old(toI), old(count),
                         old(causedByMoveSomewhere))
      ensures moveSomewhere == old(moveSomewhere)
      ensures !old(InRange()) || old(fromList.items)[fromI].Empty() ==>
        fromList.items == old(fromList.items) && toList.items == old(toList.items) && moveCount == old(moveCount)
      ensures old(InRange()) && !old(fromList.items)[fromI].Empty() ==>
        Applied(Expected(old(fromList.items), old(toList.items), a),
        fromList, old(fromList.items), fromI, toList, old(toList.items), toI, causedByMoveSomewhere, moveCount)
    {
      hide MoveSlots, LeftOver, Fits, Requested, Applied, OutcomeOf;
      if fromI < 0 || |fromList.items| <= fromI {
        return;
      }
      if toI < 0 || |toList.items| <= toI {
        return;
      }
      if fromList == toList && fromI == toI {
        return;
      }
      RequestedEmpty(fromList.items[fromI], count);
      if Requested(fromList.items[fromI], count).Empty() {
        return;
      }
      MoveSome(a);
    }

    // The middle of apply: how many to move, and whether the stacks are to be swapped.
    method MoveSome(a: Answers)
      requires InRange() && !fromList.items[fromI].Empty()
      modifies this, fromList, toList
      ensures SameAction(old(fromInv), old(fromList), old(fromI), old(toInv), old(toList), old(toI), old(count),
                         old(causedByMoveSomewhere))
      ensures moveSomewhere == old(moveSomewhere)
      ensures Applied(Expected(old(fromList.items), old(toList.items), a),
        fromList, old(fromList.items), fromI, toList, old(toList.items), toI, causedByMoveSomewhere, moveCount)
    {
      hide MoveSlots, LeftOver, Fits, Requested, Exchanged;
      var srcItem := Requested(fromList.items[fromI], count);
      var restItem := LeftOver(toList.items[toI], srcItem, toList.max);
      var allowSwap := !restItem.Empty() && restItem.count == srcItem.count && !causedByMoveSomewhere;
      RequestedEmpty(fromList.items[fromI], count);
      FitsIs(toList.items[toI], srcItem, toList.max);
      moveCount := srcItem.count - restItem.count;
      if causedByMoveSomewhere && moveCount == 0 {
        NothingExchanged(fromList, fromI, toList, toI);
        return;
      }
      if allowSwap {
        NothingFits(toList.items[toI], srcItem, toList.max);
        srcItem := fromList.items[fromI];
        moveCount := srcItem.count;
      }
      srcItem := srcItem.(count := moveCount);
      allowSwap := ApplyLimits(srcItem, toList.items[toI], allowSwap, a);
      FitsWithin(fromList.items[fromI], toList.items[toI], count, toList.max);
      // The source caps the count here, for callbacks that changed the stack; these did not.
      assert moveCount <= fromList.items[fromI].count;
      if moveCount == 0 {
        NothingExchanged(fromList, fromI, toList, toI);
        return;
      }
      PerformMove(allowSwap);
    }

    // The limits given by the callbacks. With a swap wanted it is the swap or nothing.
    method ApplyLimits(item: ItemStack, back: ItemStack, swapWanted: bool, a: Answers) returns (allowSwap: bool)
      requires swapWanted ==> !back.Empty() && item.count == moveCount > 0
      modifies this
      ensures SameAction(old(fromInv), old(fromList), old(fromI), old(toInv), old(toList), old(toI), old(count),
                         old(causedByMoveSomewhere))
      ensures moveSomewhere == old(moveSomewhere) && moveCount <= old(moveCount)
      ensures allowSwap <==> swapWanted && SwapAllowed(item, back, fromInv == toInv, a)
      ensures swapWanted ==> (moveCount == 0 <==> !allowSwap)
      ensures !swapWanted ==> moveCount == Min(old(moveCount), if fromInv == toInv then a.take else Min(a.take, a.put))
    {
      var take, put;
      take, put, allowSwap := AskCallbacks(item, back, swapWanted, a);
      if take < moveCount {
        moveCount := take;
      }
      if put < moveCount {
        moveCount := put;
      }
    }

    // The end of apply: the move itself. A swap takes place exactly when it was allowed.
    method PerformMove(allowSwap: bool)
      requires InRange() && !fromList.items[fromI].Empty() && moveCount > 0
      requires var fit := Fits(toList.items[toI], Requested(fromList.items[fromI], count), toList.max);
        if allowSwap then fit == 0 && !causedByMoveSomewhere else moveCount <= fit
      modifies this`moveCount, fromList, toList
      ensures Applied(if allowSwap then Swapped else MovedSome(old(moveCount)), fromList, old(fromList.items), fromI,
        toList, old(toList.items), toI, causedByMoveSomewhere, moveCount)
    {
      hide MoveSlots, LeftOver, Fits, Requested;
      ghost var s, d := fromList.items[fromI], toList.items[toI];
      if allowSwap {
        WhatDoesNotFitSwaps(s, d, count, moveCount, toList.max);
      } else {
        WhatFitsMoves(s, d, count, moveCount, toList.max);
      }
      var srcItem, didSwap := fromList.MoveItem(fromI, toList, toI, moveCount, allowSwap);
      moveCount := srcItem.count;
      assert allowSwap == didSwap;
    }

    // The slots the loops of a move to anywhere reach: the size of the list as an s16.
    ghost function Reach(): (n: nat)
      reads this, toList
      ensures n <= |toList.items|
    {
      if ToS16(|toList.items|) > 0 then ToS16(|toList.items|) else 0
    }

    // The action as a run sees it: without a source slot there is nothing to move.
    ghost function SourceNow(): ItemStack
      reads this, fromList
    {
      StackAt(fromList.items, fromI)
    }

    ghost function Now(n: nat, sound: bool): Click
      requires n <= |toList.items|
      reads this, fromList, toList
    {
      Click(toList.items[..n], SourceNow(), count, moveCount, sound)
    }

    ghost function WayNow(n: nat, answers: nat -> Answers): Way
      reads this, fromList, toList
    {
      Way(if fromList == toList && 0 <= fromI < |fromList.items| && fromI < n then Some(fromI) else None,
          fromInv == toInv, answers, toList.max)
    }

    // Only the first n slots and the source slot may have changed.
    ghost predicate Framed(was: seq<ItemStack>, wasTo: seq<ItemStack>, n: nat)
      reads this, fromList, toList
    {
      Frame(was, wasTo, fromList.items, toList.items, fromList == toList, fromI, n)
    }

    // apply for one slot.
    method OfferSlot(destI: nat, answers: nat -> Answers, ghost n: nat, ghost sound: bool)
      requires destI < n <= |toList.items| && causedByMoveSomewhere && count > 0
      modifies this, fromList, toList
      ensures SameAction(old(fromInv), old(fromList), old(fromI), old(toInv), old(toList), destI, old(count), true)
      ensures moveSomewhere == old(moveSomewhere) && n <= |toList.items|
      ensures Now(n, sound) == Offered(old(Now(n, sound)), old(WayNow(n, answers)), destI)
      ensures Framed(old(fromList.items), old(toList.items), n)
    {
      hide OutcomeOf, After, MoveSlots;
      ghost var s, d := SourceNow(), toList.items[destI];
      ghost var o := OutcomeOf(s, d, count, true, fromInv == toInv, answers(destI), toList.max);
      ghost var m := After(o, s, d, toList.max);
      if !s.Empty() {
        OutcomeBounded(s, d, count, fromInv == toInv, answers(destI), toList.max);
      }
      SlotsChanged(fromList.items, toList.items, fromList == toList, fromI, n, destI, m.source, m.dest);
      toI := destI;
      MoveToSlot(answers(destI));
    }

    // One step of a move to anywhere: one slot is offered the stack, and what was moved is counted. held
    // is the source's assertion on the two counts.
    method AddTo(destI: nat, answers: nat -> Answers, ghost n: nat, ghost sound: bool) returns (ghost held: bool)
      requires destI < n <= |toList.items| && causedByMoveSomewhere && count > 0
      modifies this, fromList, toList
      ensures SameAction(old(fromInv), old(fromList), old(fromI), old(toInv), old(toList), destI, count, true)
      ensures moveSomewhere == old(moveSomewhere) && n <= |toList.items|
      ensures Now(n, held) == Visit(old(Now(n, sound)), old(WayNow(n, answers)), destI)
      ensures Framed(old(fromList.items), old(toList.items), n)
    {
      hide Offered, Frame;
      OfferSlot(destI, answers, n, sound);
      held := sound && moveCount <= count;
      count := (count - moveCount) % 0x1_0000;
    }

    // One of the two loops.
    method AddToWhere(used: bool, answers: nat -> Answers, ghost sound: bool) returns (ghost held: bool)
      requires causedByMoveSomewhere
      modifies this, fromList, toList
      ensures SameAction(old(fromInv), old(fromList), old(fromI), old(toInv), old(toList), toI, count, true)
      ensures moveSomewhere == old(moveSomewhere)
      ensures Framed(old(fromList.items), old(toList.items), old(Reach()))
      ensures var n := old(Reach());
        var start := if used then 0 else n;
        Now(n, held) == Run(old(Now(n, sound)), old(WayNow(n, answers)), start, start + n)
    {
      hide Visit, Run, Frame;
      ghost var n, w := Reach(), WayNow(Reach(), answers);
      FrameStart(fromList.items, toList.items, fromList == toList, fromI, n);
      ghost var was, start := Now(n, sound), if used then 0 else n;
      held := sound;
      var destSize := ToS16(|toList.items|);
      var destI := 0;
      RunNone(was, w, start);
      while destI < destSize && count > 0
        invariant destI <= n <= |toList.items| && (n > 0 ==> destSize == n) && destSize <= n
        invariant |fromList.items| == |old(fromList.items)|
        invariant SameAction(old(fromInv), old(fromList), old(fromI), old(toInv), old(toList), toI, count, true)
        invariant moveSomewhere == old(moveSomewhere)
        invariant Framed(old(fromList.items), old(toList.items), n)
        invariant Now(n, held) == Run(was, w, start, start + destI)
      {
        RunNext(was, w, start, start + destI);
        if toList.items[destI].Empty() != used {
          ghost var mid, midTo := fromList.items, toList.items;
          held := AddTo(destI, answers, n, held);
          FramesCompose(old(fromList.items), old(toList.items), mid, midTo, fromList.items, toList.items,
                        fromList == toList, fromI, n);
        }
        destI := destI + 1;
      }
      if destI < n {
        RunStops(was, w, start, start + destI, start + n);
      }
    }

    // apply for a move to anywhere. held says whether the source's assertion holds throughout; it goes
    // on as the program does that is compiled without assertions.
    method MoveAnywhere(answers: nat -> Answers) returns (ghost held: bool)
      requires moveSomewhere
      modifies this, fromList, toList
      ensures SameAction(old(fromInv), old(fromList), old(fromI), old(toInv), old(toList), old(toI), old(count), false)
      ensures moveSomewhere && Framed(old(fromList.items), old(toList.items), old(Reach()))
      ensures var n := old(Reach());
        var r := All(old(Now(n, true)), old(WayNow(n, answers)));
        && n <= |toList.items| && toList.items[..n] == r.items && SourceNow() == r.source
        && moveCount == r.moved && held == r.sound
      // Nothing is lost or made.
      ensures forall k :: Conserved(old(fromList.items), old(toList.items), k)
    {
      hide Run, Visit, Stock, Conserved;
      ghost var n, w, c := Reach(), WayNow(Reach(), answers), Now(Reach(), true);
      ghost var was, wasTo := fromList.items, toList.items;
      var oldToI, oldCount := toI, count;
      causedByMoveSomewhere := true;
      moveSomewhere := false;
      held := TryAllSlots(answers);
      ghost var r := Now(n, held);
      toI := oldToI;
      count := oldCount;
      causedByMoveSomewhere := false;
      moveSomewhere := true;
      forall k
        ensures Conserved(was, wasTo, k)
      {
        ClickConserves(c, w, 2 * n, k);
        RunConserves(was, wasTo, n, c, r, w, k);
      }
    }

    // The two loops.
    method TryAllSlots(answers: nat -> Answers) returns (ghost held: bool)
      requires causedByMoveSomewhere
      modifies this, fromList, toList
      ensures SameAction(old(fromInv), old(fromList), old(fromI), old(toInv), old(toList), toI, count, true)
      ensures moveSomewhere == old(moveSomewhere)
      ensures Framed(old(fromList.items), old(toList.items), old(Reach()))
      ensures Now(old(Reach()), held) == All(old(Now(Reach(), true)), old(WayNow(Reach(), answers)))
    {
      hide Run, Visit;
      ghost var n, w, c := Reach(), WayNow(Reach(), answers), Now(Reach(), true);
      held := AddToWhere(true, answers, true);
      ghost var middle := Now(n, held);
      held := AddToWhere(false, answers, held);
      RunSplit(c, w, 0, n, 2 * n);
    }

    // As many items of the kind as before, in the one list or in both.
    ghost predicate Conserved(was: seq<ItemStack>, wasTo: seq<ItemStack>, k: Kind)
      reads this, fromList, toList
    {
      if fromList == toList then Total(toList.items, k) == Total(wasTo, k)
      else Total(fromList.items, k) + Total(toList.items, k) == Total(was, k) + Total(wasTo, k)
    }

    lemma RunConserves(was: seq<ItemStack>, wasTo: seq<ItemStack>, n: nat, c: Click, r: Click, w: Way, k: Kind)
      requires Framed(was, wasTo, n) && n <= |wasTo| && c.items == wasTo[..n] && r.items == toList.items[..n]
      requires c.source == StackAt(was, fromI) && r.source == SourceNow() && Stock(r, w, k) == Stock(c, w, k)
      requires w.home == if fromList == toList && 0 <= fromI < n then Some(fromI) else None
      requires fromList == toList ==> was == wasTo
      ensures Conserved(was, wasTo, k)
    {
      hide Total, Stock;
      if fromList == toList {
        OneListKept(wasTo, toList.items, fromI, n, c, r, w, k);
      } else {
        TwoListsKept(was, fromList.items, wasTo, toList.items, fromI, n, c, r, w, k);
      }
    }
  }

  ghost predicate Frame(was: seq<ItemStack>, wasTo: seq<ItemStack>, items: seq<ItemStack>, itemsTo: seq<ItemStack>,
                        oneList: bool, i: int, n: nat)
  {
    && |items| == |was| && |itemsTo| == |wasTo|
    && (forall j :: n <= j < |wasTo| && !(oneList && j == i) ==> itemsTo[j] == wasTo[j])
    && (!oneList ==> forall j :: 0 <= j < |was| && j != i ==> items[j] == was[j])
  }

  lemma FrameStart(was: seq<ItemStack>, wasTo: seq<ItemStack>, oneList: bool, i: int, n: nat)
    ensures Frame(was, wasTo, was, wasTo, oneList, i, n)
  {
  }

  lemma FramesCompose(was: seq<ItemStack>, wasTo: seq<ItemStack>, mid: seq<ItemStack>, midTo: seq<ItemStack>,
                      items: seq<ItemStack>, itemsTo: seq<ItemStack>, oneList: bool, i: int, n: nat)
    requires Frame(was, wasTo, mid, midTo, oneList, i, n) && Frame(mid, midTo, items, itemsTo, oneList, i, n)
    ensures Frame(was, wasTo, items, itemsTo, oneList, i, n) && |items| == |was|
  {
  }

  // The first n slots after the source slot and slot j were given new stacks.
  lemma SlotsChanged(was: seq<ItemStack>, wasTo: seq<ItemStack>, oneList: bool, i: int, n: nat, j: nat,
                     s: ItemStack, d: ItemStack)
    requires j < n <= |wasTo| && (oneList ==> was == wasTo)
    ensures 0 <= i < |was| && oneList && i != j ==>
      was[i := s][j := d][..n] == Replaced(wasTo[..n], if i < n then Some(i) else None, s)[j := d]
    ensures 0 <= i < |was| && !oneList ==> wasTo[j := d][..n] == wasTo[..n][j := d]
  {
  }

  lemma TailKept(was: seq<ItemStack>, items: seq<ItemStack>, n: nat, k: Kind)
    requires n <= |was| == |items| && items[n..] == was[n..]
    ensures Total(items, k) + Total(was[..n], k) == Total(was, k) + Total(items[..n], k)
  {
    hide Total;
    assert was == was[..n] + was[n..] && items == items[..n] + items[n..];
    TotalConcat(was[..n], was[n..], k);
    TotalConcat(items[..n], items[n..], k);
  }

  lemma SlotChanged(was: seq<ItemStack>, items: seq<ItemStack>, i: nat, k: Kind)
    requires i < |was| == |items| && forall j :: 0 <= j < |was| && j != i ==> items[j] == was[j]
    ensures Total(items, k) + Amount(was[i], k) == Total(was, k) + Amount(items[i], k)
  {
    hide Total;
    assert items == was[i := items[i]];
    TotalUpdate(was, i, items[i], k);
  }

  // The source stack: that of its slot, or nothing if the slot is out of range.
  function StackAt(items: seq<ItemStack>, i: int): ItemStack {
    if 0 <= i < |items| then items[i] else NO_ITEM
  }

  lemma OneListKept(was: seq<ItemStack>, items: seq<ItemStack>, i: int, n: nat, c: Click, r: Click, w: Way, k: Kind)
    requires n <= |was| == |items| && c.items == was[..n] && r.items == items[..n]
    requires forall j :: n <= j < |was| && j != i ==> items[j] == was[j]
    requires w.home == if 0 <= i < n then Some(i) else None
    requires c.source == StackAt(was, i) && r.source == StackAt(items, i) && Stock(r, w, k) == Stock(c, w, k)
    ensures Total(items, k) == Total(was, k)
  {
    hide Total, Amount;
    if n <= i < |was| {
      var mid := was[..n] + items[n..];
      assert mid[..n] == was[..n] && mid[n..] == items[n..];
      TailKept(mid, items, n, k);
      SlotChanged(was, mid, i, k);
    } else {
      assert items[n..] == was[n..];
      TailKept(was, items, n, k);
    }
  }

  lemma TwoListsKept(was: seq<ItemStack>, items: seq<ItemStack>, wasTo: seq<ItemStack>, itemsTo: seq<ItemStack>, i: int,
                     n: nat, c: Click, r: Click, w: Way, k: Kind)
    requires n <= |wasTo| == |itemsTo| && |was| == |items| && c.items == wasTo[..n] && r.items == itemsTo[..n]
    requires forall j :: n <= j < |wasTo| ==> itemsTo[j] == wasTo[j]
    requires forall j :: 0 <= j < |was| && j != i ==> items[j] == was[j]
    requires w.home.None? && c.source == StackAt(was, i) && r.source == StackAt(items, i)
    requires Stock(r, w, k) == Stock(c, w, k)
    ensures Total(items, k) + Total(itemsTo, k) == Total(was, k) + Total(wasTo, k)
  {
    hide Total, Amount;
    assert itemsTo[n..] == wasTo[n..];
    TailKept(wasTo, itemsTo, n, k);
    if 0 <= i < |was| {
      SlotChanged(was, items, i, k);
    } else {
      assert items == was;
    }
  }

  // The two slots after the outcome, and the count moved, which a move to anywhere goes on with.
  ghost predicate Applied(outcome: Outcome, fromList: InventoryList, was: seq<ItemStack>, i: int, toList: InventoryList,
                          wasTo: seq<ItemStack>, j: int, caused: bool, moveCount: nat)
    requires 0 <= i < |was| && 0 <= j < |wasTo|
    reads fromList, toList
  {
    && Exchanged(After(outcome, was[i], wasTo[j], toList.max), fromList, was, i, toList, wasTo, j)
    && match outcome
       case Nothing => caused ==> moveCount == 0
       case MovedSome(n) => moveCount == n
       case Swapped => moveCount == was[i].count
  }

  // The two slots hold what m says, and all others what they held.
  ghost predicate Exchanged(m: Moved, fromList: InventoryList, was: seq<ItemStack>, i: int, toList: InventoryList,
                            wasTo: seq<ItemStack>, j: int)
    requires 0 <= i < |was| && 0 <= j < |wasTo|
    reads fromList, toList
  {
    if fromList == toList then j < |was| && fromList.items == was[i := m.source][j := m.dest]
    else fromList.items == was[i := m.source] && toList.items == wasTo[j := m.dest]
  }

  lemma NothingExchanged(fromList: InventoryList, i: int, toList: InventoryList, j: int)
    requires 0 <= i < |fromList.items| && 0 <= j < |toList.items|
    ensures Exchanged(Moved(fromList.items[i], toList.items[j], NO_ITEM, false), fromList, fromList.items, i, toList,
                      toList.items, j)
  {
  }
}
