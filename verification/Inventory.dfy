// Item stacks and inventory lists (src/inventory.cpp, src/inventory.h).

module Stacks {
  import opened Numbers
  import opened Items

  // The largest stack of each item, from the item definitions.
  type StackMax = string -> u16

  predicate SameKind(a: ItemStack, b: ItemStack) {
    a.name == b.name && a.metadata == b.metadata
  }

  // ItemStack::freeSpace; a stack may be larger than the maximum.
  function FreeSpace(s: ItemStack, max: StackMax): u16 {
    var m: u16 := max(s.name);
    if s.count >= m then 0 else m - s.count
  }

  // ItemStack::remove, which clears a stack it empties.
  function RemoveCount(s: ItemStack, n: nat): ItemStack
    requires n <= s.count
  {
    if s.count == n then NO_ITEM else s.(count := s.count - n)
  }

  // A stack after adding, and what is left of the item added.
  datatype Added = Added(stack: ItemStack, rest: ItemStack)

  // ItemStack::addItem
  function AddToStack(s: ItemStack, item: ItemStack, max: StackMax): Added {
    if item.Empty() then Added(s, item)
    else if s.Empty() then Added(item, NO_ITEM)
    else if !SameKind(s, item) then Added(s, item)
    else if item.count <= FreeSpace(s, max) then Added(s.(count := s.count + item.count), NO_ITEM)
    else Added(s.(count := s.count + FreeSpace(s, max)), RemoveCount(item, FreeSpace(s, max)))
  }

  // ItemStack::itemFits, giving what would be left over.
  function LeftOver(s: ItemStack, item: ItemStack, max: StackMax): ItemStack {
    if item.Empty() then item
    else if s.Empty() then NO_ITEM
    else if !SameKind(s, item) then item
    else if item.count <= FreeSpace(s, max) then NO_ITEM
    else RemoveCount(item, FreeSpace(s, max))
  }

  // A stack after taking, and what was taken.
  datatype Taken = Taken(stack: ItemStack, taken: ItemStack)

  // ItemStack::takeItem
  function TakeFromStack(s: ItemStack, n: nat): Taken {
    if n == 0 || s.Empty() then Taken(s, NO_ITEM)
    else if n >= s.count then Taken(NO_ITEM, s)
    else Taken(RemoveCount(s, n), s.(count := n))
  }

  // ---- counting items of one kind

  // What items are counted together: those with the name, and the metadata if it has to match.
  datatype Kind = Kind(name: string, metadata: map<string, string>, matchMeta: bool)

  predicate Counts(s: ItemStack, k: Kind) {
    s.name == k.name && (k.matchMeta ==> s.metadata == k.metadata)
  }

  function Amount(s: ItemStack, k: Kind): nat {
    if Counts(s, k) then s.count else 0
  }

  function Total(items: seq<ItemStack>, k: Kind): nat {
    if items == [] then 0 else Amount(items[0], k) + Total(items[1..], k)
  }

  lemma {:induction false} TotalConcat(a: seq<ItemStack>, b: seq<ItemStack>, k: Kind)
    ensures Total(a + b, k) == Total(a, k) + Total(b, k)
  {
    if a == [] {
      assert a + b == b;
    } else {
      assert (a + b)[1..] == a[1..] + b;
      TotalConcat(a[1..], b, k);
    }
  }

  lemma TotalSnoc(items: seq<ItemStack>, s: ItemStack, k: Kind)
    ensures Total(items + [s], k) == Total(items, k) + Amount(s, k)
  {
    TotalConcat(items, [s], k);
  }

  lemma {:induction false} TotalUpdate(items: seq<ItemStack>, i: nat, s: ItemStack, k: Kind)
    requires i < |items|
    ensures Total(items[i := s], k) + Amount(items[i], k) == Total(items, k) + Amount(s, k)
  {
    if i == 0 {
      assert items[i := s][1..] == items[1..];
    } else {
      assert items[i := s][1..] == items[1..][i - 1 := s];
      TotalUpdate(items[1..], i - 1, s, k);
    }
  }

  lemma AddConserves(s: ItemStack, item: ItemStack, max: StackMax, k: Kind)
    ensures var a := AddToStack(s, item, max);
      Amount(a.stack, k) + Amount(a.rest, k) == Amount(s, k) + Amount(item, k)
  {
  }

  // A stack only grows up to the maximum, and something of the kind is left over only if it is full.
  lemma AddFillsUp(s: ItemStack, item: ItemStack, max: StackMax)
    requires !s.Empty() && !item.Empty()
    ensures var a := AddToStack(s, item, max);
      && (a.stack.count <= max(s.name) || a.stack == s)
      && (SameKind(s, item) && !a.rest.Empty() ==> a.stack.count >= max(s.name))
      && (!SameKind(s, item) ==> a == Added(s, item))
  {
  }

  lemma TakeConserves(s: ItemStack, n: nat, k: Kind)
    ensures var t := TakeFromStack(s, n);
      && Amount(t.stack, k) + Amount(t.taken, k) == Amount(s, k)
      && t.taken.count == (if n < s.count then n else s.count)
      && (Counts(s, k) ==> Amount(t.taken, k) == t.taken.count)
  {
  }

  // What itemFits foretells is what addItem leaves.
  lemma FitsForetells(s: ItemStack, item: ItemStack, max: StackMax)
    ensures LeftOver(s, item, max) == AddToStack(s, item, max).rest
  {
  }

  // ---- adding to a list

  datatype ListAdded = ListAdded(items: seq<ItemStack>, rest: ItemStack)

  // Adding to the used slots, or to the empty ones, from the left until nothing is left.
  function AddPass(items: seq<ItemStack>, item: ItemStack, max: StackMax, used: bool): ListAdded {
    if items == [] || item.Empty() then ListAdded(items, item)
    else if items[0].Empty() == used then
      var r := AddPass(items[1..], item, max, used);
      ListAdded([items[0]] + r.items, r.rest)
    else
      var a := AddToStack(items[0], item, max);
      var r := AddPass(items[1..], a.rest, max, used);
      ListAdded([a.stack] + r.items, r.rest)
  }

  // InventoryList::addItem: used slots first.
  function AddToList(items: seq<ItemStack>, item: ItemStack, max: StackMax): ListAdded {
    var r := AddPass(items, item, max, true);
    AddPass(r.items, r.rest, max, false)
  }

  lemma {:induction false} AddPassConserves(items: seq<ItemStack>, item: ItemStack, max: StackMax, used: bool, k: Kind)
    ensures var r := AddPass(items, item, max, used);
      |r.items| == |items| && Total(r.items, k) + Amount(r.rest, k) == Total(items, k) + Amount(item, k)
  {
    if items == [] || item.Empty() {
    } else if items[0].Empty() == used {
      var r := AddPass(items[1..], item, max, used);
      AddPassConserves(items[1..], item, max, used, k);
      assert ([items[0]] + r.items)[1..] == r.items;
    } else {
      var a := AddToStack(items[0], item, max);
      var r := AddPass(items[1..], a.rest, max, used);
      AddConserves(items[0], item, max, k);
      AddPassConserves(items[1..], a.rest, max, used, k);
      assert ([a.stack] + r.items)[1..] == r.items;
    }
  }

  lemma AddToListConserves(items: seq<ItemStack>, item: ItemStack, max: StackMax, k: Kind)
    ensures var r := AddToList(items, item, max);
      |r.items| == |items| && Total(r.items, k) + Amount(r.rest, k) == Total(items, k) + Amount(item, k)
  {
    AddPassConserves(items, item, max, true, k);
    var r := AddPass(items, item, max, true);
    AddPassConserves(r.items, r.rest, max, false, k);
  }

  // ---- how much fits

  predicate HasEmpty(items: seq<ItemStack>) {
    exists i :: 0 <= i < |items| && items[i].Empty()
  }

  // The room in the used slots that hold the same kind.
  function Free(items: seq<ItemStack>, item: ItemStack, max: StackMax): nat {
    if items == [] then 0
    else
      var here := if !items[0].Empty() && SameKind(items[0], item) then FreeSpace(items[0], max) else 0;
      here + Free(items[1..], item, max)
  }

  predicate RoomFor(items: seq<ItemStack>, item: ItemStack, max: StackMax) {
    HasEmpty(items) || item.count <= Free(items, item, max)
  }

  lemma {:induction false} FreeOfKind(items: seq<ItemStack>, a: ItemStack, b: ItemStack, max: StackMax)
    requires SameKind(a, b)
    ensures Free(items, a, max) == Free(items, b, max)
  {
    if items != [] {
      FreeOfKind(items[1..], a, b, max);
    }
  }

  // Adding to the used slots leaves exactly what exceeds their room.
  lemma {:induction false} UsedPassRest(items: seq<ItemStack>, item: ItemStack, max: StackMax)
    ensures var r := AddPass(items, item, max, true);
      && r.rest.count == (if item.count <= Free(items, item, max) then 0 else item.count - Free(items, item, max))
      && (!r.rest.Empty() ==> SameKind(r.rest, item))
      && (HasEmpty(r.items) <==> HasEmpty(items))
  {
    if items == [] || item.Empty() {
    } else {
      var s := items[0];
      var a := if s.Empty() then Added(s, item) else AddToStack(s, item, max);
      var r := AddPass(items[1..], a.rest, max, true);
      UsedPassRest(items[1..], a.rest, max);
      if !a.rest.Empty() {
        FreeOfKind(items[1..], a.rest, item, max);
      }
      EmptyCons(a.stack, r.items);
      EmptyCons(s, items[1..]);
      assert items == [s] + items[1..];
    }
  }

  lemma EmptyCons(s: ItemStack, items: seq<ItemStack>)
    ensures HasEmpty([s] + items) <==> s.Empty() || HasEmpty(items)
  {
    if HasEmpty(items) {
      var i :| 0 <= i < |items| && items[i].Empty();
      assert ([s] + items)[i + 1].Empty();
    }
    if s.Empty() {
      assert ([s] + items)[0].Empty();
    }
  }

  // Any empty slot takes the whole of what is left.
  lemma {:induction false} EmptyPassRest(items: seq<ItemStack>, item: ItemStack, max: StackMax)
    ensures AddPass(items, item, max, false).rest.Empty() <==> item.Empty() || HasEmpty(items)
    ensures !HasEmpty(items) ==> AddPass(items, item, max, false) == ListAdded(items, item)
  {
    if items == [] || item.Empty() {
    } else {
      EmptyCons(items[0], items[1..]);
      assert items == [items[0]] + items[1..];
      if items[0].Empty() {
        assert AddPass(items[1..], NO_ITEM, max, false).rest.Empty();
      } else {
        EmptyPassRest(items[1..], item, max);
      }
    }
  }

  // What addItem leaves: nothing with an empty slot, else what exceeds the room in its own kind.
  lemma AddToListRest(items: seq<ItemStack>, item: ItemStack, max: StackMax)
    ensures AddToList(items, item, max).rest.Empty() <==> item.Empty() || RoomFor(items, item, max)
    ensures !HasEmpty(items) && Free(items, item, max) < item.count ==>
      AddToList(items, item, max).rest.count == item.count - Free(items, item, max)
  {
    UsedPassRest(items, item, max);
    var r := AddPass(items, item, max, true);
    EmptyPassRest(r.items, r.rest, max);
  }

  // ---- removing from a list

  datatype ListRemoved = ListRemoved(items: seq<ItemStack>, removed: ItemStack)

  function KindOf(item: ItemStack, matchMeta: bool): Kind {
    Kind(item.name, item.metadata, matchMeta)
  }

  // One slot of InventoryList::removeItem: taken joins removed, beyond the stack size if need be.
  function Join(removed: ItemStack, taken: ItemStack, max: StackMax): ItemStack
    requires removed.count + taken.count < 0x1_0000
  {
    var a := AddToStack(removed, taken, max);
    a.stack.(count := a.stack.count + a.rest.count)
  }

  lemma JoinCount(removed: ItemStack, taken: ItemStack, max: StackMax)
    requires removed.count + taken.count < 0x1_0000
    ensures Join(removed, taken, max).count == removed.count + taken.count
  {
  }

  // InventoryList::removeItem walks the list from its end until it has what it wants.
  function RemoveRight(items: seq<ItemStack>, want: u16, k: Kind, removed: ItemStack, max: StackMax): ListRemoved
    requires removed.count <= want
    decreases |items|
  {
    if items == [] then ListRemoved(items, removed)
    else
      var before, last := items[..|items| - 1], items[|items| - 1];
      if !Counts(last, k) then
        var r := RemoveRight(before, want, k, removed, max);
        ListRemoved(r.items + [last], r.removed)
      else
        var t := TakeFromStack(last, want - removed.count);
        var removed' := Join(removed, t.taken, max);
        if removed'.count == want then ListRemoved(before + [t.stack], removed')
        else
          JoinCount(removed, t.taken, max);
          var r := RemoveRight(before, want, k, removed', max);
          ListRemoved(r.items + [t.stack], r.removed)
  }

  predicate Apart(j: Kind, k: Kind) {
    j.name != k.name || (j.matchMeta && k.matchMeta && j.metadata != k.metadata)
  }

  // It removes as many as there are, up to what is wanted, and nothing of any other kind.
  lemma {:induction false} RemoveRightCounts(items: seq<ItemStack>, want: u16, k: Kind, removed: ItemStack,
                                             max: StackMax)
    requires removed.count <= want
    ensures var r := RemoveRight(items, want, k, removed, max);
      && |r.items| == |items|
      && r.removed.count == (if removed.count + Total(items, k) < want then removed.count + Total(items, k) else want)
      && Total(r.items, k) + r.removed.count == Total(items, k) + removed.count
    decreases |items|
  {
    hide TakeFromStack, Join;
    if items != [] {
      var before, last := items[..|items| - 1], items[|items| - 1];
      assert items == before + [last];
      TotalSnoc(before, last, k);
      if !Counts(last, k) {
        RemoveRightCounts(before, want, k, removed, max);
        TotalSnoc(RemoveRight(before, want, k, removed, max).items, last, k);
      } else {
        var t := TakeFromStack(last, want - removed.count);
        TakeConserves(last, want - removed.count, k);
        JoinCount(removed, t.taken, max);
        var removed' := Join(removed, t.taken, max);
        TotalSnoc(before, t.stack, k);
        if removed'.count < want {
          RemoveRightCounts(before, want, k, removed', max);
          TotalSnoc(RemoveRight(before, want, k, removed', max).items, t.stack, k);
        }
      }
    }
  }

  lemma TakenApart(s: ItemStack, n: nat, k: Kind, j: Kind)
    requires Counts(s, k) && Apart(j, k)
    ensures Amount(TakeFromStack(s, n).stack, j) == 0 == Amount(s, j)
    ensures TakeFromStack(s, n).taken.count <= n
  {
  }

  lemma {:induction false} RemoveRightOthers(items: seq<ItemStack>, want: u16, k: Kind, removed: ItemStack,
                                             max: StackMax, j: Kind)
    requires removed.count <= want && Apart(j, k)
    ensures Total(RemoveRight(items, want, k, removed, max).items, j) == Total(items, j)
    decreases |items|
  {
    hide Total, Join, Amount, TakeFromStack;
    if items != [] {
      var before, last := items[..|items| - 1], items[|items| - 1];
      assert items == before + [last];
      TotalSnoc(before, last, j);
      if !Counts(last, k) {
        RemoveRightOthers(before, want, k, removed, max, j);
        TotalSnoc(RemoveRight(before, want, k, removed, max).items, last, j);
      } else {
        var t := TakeFromStack(last, want - removed.count);
        TakenApart(last, want - removed.count, k, j);
        var removed' := Join(removed, t.taken, max);
        JoinCount(removed, t.taken, max);
        TotalSnoc(before, t.stack, j);
        if removed'.count < want {
          RemoveRightOthers(before, want, k, removed', max, j);
          TotalSnoc(RemoveRight(before, want, k, removed', max).items, t.stack, j);
        }
      }
    }
  }

  // ---- a slot while its list is added to

  // A used slot keeps its kind, and what it gains is no longer left over.
  lemma {:induction false} SlotGrows(items: seq<ItemStack>, item: ItemStack, max: StackMax, used: bool, i: nat)
    requires i < |items| && !items[i].Empty()
    ensures var r := AddPass(items, item, max, used);
      && |r.items| == |items| && SameKind(r.items[i], items[i]) && r.items[i].count >= items[i].count
      && r.items[i].count - items[i].count + r.rest.count <= item.count
      && (!r.rest.Empty() ==> SameKind(r.rest, item))
  {
    if items == [] || item.Empty() {
    } else {
      var a := if items[0].Empty() == used then Added(items[0], item) else AddToStack(items[0], item, max);
      var r := AddPass(items[1..], a.rest, max, used);
      if i > 0 {
        SlotGrows(items[1..], a.rest, max, used, i - 1);
      } else {
        RestShrinks(items[1..], a.rest, max, used);
      }
    }
  }

  lemma {:induction false} RestShrinks(items: seq<ItemStack>, item: ItemStack, max: StackMax, used: bool)
    ensures var r := AddPass(items, item, max, used);
      |r.items| == |items| && r.rest.count <= item.count && (!r.rest.Empty() ==> SameKind(r.rest, item))
  {
    if items == [] || item.Empty() {
    } else {
      var a := if items[0].Empty() == used then Added(items[0], item) else AddToStack(items[0], item, max);
      RestShrinks(items[1..], a.rest, max, used);
    }
  }

  lemma UsedSlotGrows(items: seq<ItemStack>, item: ItemStack, max: StackMax, i: nat)
    requires i < |items| && !items[i].Empty()
    ensures var r := AddToList(items, item, max);
      && |r.items| == |items| && SameKind(r.items[i], items[i]) && r.items[i].count >= items[i].count
      && r.items[i].count - items[i].count + r.rest.count <= item.count
      && (!r.rest.Empty() ==> SameKind(r.rest, item))
  {
    SlotGrows(items, item, max, true, i);
    var r := AddPass(items, item, max, true);
    SlotGrows(r.items, r.rest, max, false, i);
  }

  // ---- moving between two slots

  // What becomes of a source and a destination slot, what was moved, and whether they were swapped.
  datatype Moved = Moved(source: ItemStack, dest: ItemStack, moved: ItemStack, didSwap: bool)

  function TakeForMove(s: ItemStack, count: nat): Taken {
    if count == 0 then Taken(NO_ITEM, s) else TakeFromStack(s, count)
  }

  // Leftovers go back to the source; if nothing could be moved the stacks may change places.
  function MoveSlots(s: ItemStack, d: ItemStack, count: nat, swapIfNeeded: bool, max: StackMax): Moved {
    var t := TakeForMove(s, count);
    var a := AddToStack(d, t.taken, max);
    if a.rest.Empty() then Moved(t.stack, a.stack, t.taken, false)
    else
      AddRestBounded(d, t.taken, max);
      var moved := RemoveCount(t.taken, a.rest.count);
      if moved.Empty() && swapIfNeeded then Moved(d, s, s, true)
      else Moved(a.rest.(count := a.rest.count + t.stack.count), a.stack, moved, false)
  }

  lemma AddRestBounded(s: ItemStack, item: ItemStack, max: StackMax)
    ensures AddToStack(s, item, max).rest.count <= item.count
  {
  }

  // What a failed or partial addition leaves, put back on the source, is the source again.
  lemma PutBack(s: ItemStack, d: ItemStack, count: nat, max: StackMax)
    ensures var t := TakeForMove(s, count);
      var rest := AddToStack(d, t.taken, max).rest;
      && rest.count + t.stack.count <= s.count && rest.count <= t.taken.count
      && (rest.count == t.taken.count > 0 ==>
        rest.(count := rest.count + t.stack.count) == s && AddToStack(d, t.taken, max).stack == d)
  {
  }

  lemma PutBackAll(s: ItemStack, count: nat)
    ensures var t := TakeForMove(s, count);
      && t.taken.count + t.stack.count == s.count
      && (!t.taken.Empty() ==> t.taken.(count := s.count) == s)
      && (t.taken.Empty() ==> t.stack == if count == 0 then NO_ITEM else s)
  {
  }

  lemma AddNothing(d: ItemStack, max: StackMax)
    ensures AddToStack(d, NO_ITEM, max) == Added(d, NO_ITEM)
  {
  }

  lemma AddKinds(s: ItemStack, item: ItemStack, max: StackMax)
    ensures var a := AddToStack(s, item, max);
      && a.stack.count + a.rest.count == s.count + item.count && a.rest.count <= item.count
      && (!a.rest.Empty() ==> SameKind(a.rest, item))
      && (a.rest.count < item.count ==> SameKind(a.stack, item))
  {
  }

  // The two slots hold the same items afterwards. Without a swap the count moved leaves one and
  // reaches the other; with one, they are exchanged.
  lemma MoveSlotsConserves(s: ItemStack, d: ItemStack, count: nat, swapIfNeeded: bool, max: StackMax, k: Kind)
    ensures var m := MoveSlots(s, d, count, swapIfNeeded, max);
      Amount(m.source, k) + Amount(m.dest, k) == Amount(s, k) + Amount(d, k)
  {
    hide AddToStack, TakeFromStack;
    var t := TakeForMove(s, count);
    AddConserves(d, t.taken, max, k);
    AddKinds(d, t.taken, max);
    TakeKinds(s, count, k);
    PutBack(s, d, count, max);
  }

  lemma TakeKinds(s: ItemStack, count: nat, k: Kind)
    ensures var t := TakeForMove(s, count);
      && Amount(t.stack, k) + Amount(t.taken, k) == Amount(s, k) && t.stack.count + t.taken.count == s.count
      && (count > 0 ==> t.taken.count <= count)
      && (!t.taken.Empty() ==> SameKind(t.taken, s)) && (!t.stack.Empty() ==> SameKind(t.stack, s))
  {
    TakeConserves(s, count, k);
  }

  lemma MoveSlotsMoves(s: ItemStack, d: ItemStack, count: nat, swapIfNeeded: bool, max: StackMax)
    ensures var m := MoveSlots(s, d, count, swapIfNeeded, max);
      && (m.didSwap ==> swapIfNeeded && m.source == d && m.dest == s)
      && (!m.didSwap ==>
        && m.source.count + m.moved.count == s.count && m.dest.count == d.count + m.moved.count
        && (count > 0 ==> m.moved.count <= count)
        && (!m.moved.Empty() ==> SameKind(m.moved, s) && SameKind(m.dest, s)))
  {
    hide AddToStack, TakeFromStack;
    var t := TakeForMove(s, count);
    AddKinds(d, t.taken, max);
    TakeKinds(s, count, KindOf(s, true));
    PutBack(s, d, count, max);
  }

  // ---- moving to anywhere in a list

  // InventoryList::moveItemSomewhere into another list: the source slot and the list after it.
  function MoveAway(s: ItemStack, list: seq<ItemStack>, count: nat, max: StackMax): (ItemStack, seq<ItemStack>) {
    var t := TakeForMove(s, count);
    var r := AddToList(list, t.taken, max);
    BackBounded(s, list, count, max);
    (if r.rest.Empty() then t.stack else r.rest.(count := r.rest.count + t.stack.count), r.items)
  }

  // And within one list.
  function MoveWithin(items: seq<ItemStack>, i: nat, count: nat, max: StackMax): seq<ItemStack>
    requires i < |items|
  {
    var t := TakeForMove(items[i], count);
    var r := AddToList(items[i := t.stack], t.taken, max);
    BackWithinBounded(items, i, count, max);
    if r.rest.Empty() then r.items else r.items[i := r.rest.(count := r.rest.count + r.items[i].count)]
  }

  lemma AddToListShrinks(items: seq<ItemStack>, item: ItemStack, max: StackMax)
    ensures var r := AddToList(items, item, max);
      |r.items| == |items| && r.rest.count <= item.count && (!r.rest.Empty() ==> SameKind(r.rest, item))
  {
    RestShrinks(items, item, max, true);
    var r := AddPass(items, item, max, true);
    RestShrinks(r.items, r.rest, max, false);
  }

  lemma BackBounded(s: ItemStack, list: seq<ItemStack>, count: nat, max: StackMax)
    ensures var t := TakeForMove(s, count); AddToList(list, t.taken, max).rest.count + t.stack.count <= s.count
  {
    hide AddToList, TakeFromStack;
    TakeKinds(s, count, KindOf(s, true));
    AddToListShrinks(list, TakeForMove(s, count).taken, max);
  }

  // No count can wrap, even if the list gave the source slot some of its items back.
  lemma BackWithinBounded(items: seq<ItemStack>, i: nat, count: nat, max: StackMax)
    requires i < |items|
    ensures var t := TakeForMove(items[i], count);
      var r := AddToList(items[i := t.stack], t.taken, max);
      |r.items| == |items| && (!r.rest.Empty() ==> r.rest.count + r.items[i].count <= items[i].count)
  {
    hide AddToList, TakeFromStack, RoomFor;
    var t := TakeForMove(items[i], count);
    var left := items[i := t.stack];
    TakeKinds(items[i], count, KindOf(items[i], true));
    AddToListShrinks(left, t.taken, max);
    if t.stack.Empty() {
      EmptyTakesAll(left, t.taken, max, i);
    } else {
      UsedSlotGrows(left, t.taken, max, i);
    }
  }

  lemma EmptyTakesAll(items: seq<ItemStack>, item: ItemStack, max: StackMax, i: nat)
    requires i < |items| && items[i].Empty()
    ensures AddToList(items, item, max).rest.Empty()
  {
    AddToListRest(items, item, max);
  }

  lemma MoveAwayConserves(s: ItemStack, list: seq<ItemStack>, count: nat, max: StackMax, k: Kind)
    ensures var (s', list') := MoveAway(s, list, count, max);
      |list'| == |list| && Amount(s', k) + Total(list', k) == Amount(s, k) + Total(list, k)
  {
    hide AddToList, TakeFromStack;
    var t := TakeForMove(s, count);
    TakeKinds(s, count, k);
    BackBounded(s, list, count, max);
    AddToListShrinks(list, t.taken, max);
    AddToListConserves(list, t.taken, max, k);
  }

  lemma MoveWithinConserves(items: seq<ItemStack>, i: nat, count: nat, max: StackMax, k: Kind)
    requires i < |items|
    ensures |MoveWithin(items, i, count, max)| == |items|
    ensures Total(MoveWithin(items, i, count, max), k) == Total(items, k)
  {
    hide AddToList, TakeFromStack, Total;
    var t := TakeForMove(items[i], count);
    var left := items[i := t.stack];
    TakeKinds(items[i], count, k);
    TotalUpdate(items, i, t.stack, k);
    AddToListShrinks(left, t.taken, max);
    AddToListConserves(left, t.taken, max, k);
    var r := AddToList(left, t.taken, max);
    if t.stack.Empty() {
      EmptyTakesAll(left, t.taken, max, i);
    } else {
      UsedSlotGrows(left, t.taken, max, i);
      BackWithinBounded(items, i, count, max);
      if !r.rest.Empty() {
        TotalUpdate(r.items, i, r.rest.(count := r.rest.count + r.items[i].count), k);
      }
    }
  }
}

// The list object, whose methods change its slots.
module Inventories {
  import opened Numbers
  import opened Items
  import opened Stacks

  class InventoryList {
    var items: seq<ItemStack>
    const max: StackMax

    constructor (size: nat, max: StackMax)
      ensures |items| == size && this.max == max && forall k :: Total(items, k) == 0
    {
      this.items := seq(size, i => NO_ITEM);
      this.max := max;
      new;
      forall k
        ensures Total(items, k) == 0
      {
        NothingToCount(items, k);
      }
    }

    method ChangeItem(i: nat, newItem: ItemStack) returns (oldItem: ItemStack)
      modifies this
      ensures i >= |old(items)| ==> items == old(items) && oldItem == newItem
      ensures i < |old(items)| ==> items == old(items)[i := newItem] && oldItem == old(items)[i]
    {
      if i >= |items| {
        return newItem;
      }
      oldItem := items[i];
      if oldItem != newItem {
        items := items[i := newItem];
      }
    }

    method AddItemAt(i: nat, newItem: ItemStack) returns (leftover: ItemStack)
      modifies this
      ensures i >= |old(items)| ==> items == old(items) && leftover == newItem
      ensures i < |old(items)| ==>
        var a := AddToStack(old(items)[i], newItem, max); items == old(items)[i := a.stack] && leftover == a.rest
    {
      if i >= |items| {
        return newItem;
      }
      var a := AddToStack(items[i], newItem, max);
      items := items[i := a.stack];
      leftover := a.rest;
    }

    method TakeItem(i: nat, takeCount: nat) returns (taken: ItemStack)
      modifies this
      ensures i >= |old(items)| ==> items == old(items) && taken == NO_ITEM
      ensures i < |old(items)| ==>
        var t := TakeFromStack(old(items)[i], takeCount); items == old(items)[i := t.stack] && taken == t.taken
    {
      if i >= |items| {
        return NO_ITEM;
      }
      var t := TakeFromStack(items[i], takeCount);
      items := items[i := t.stack];
      taken := t.taken;
    }

    // One of the two loops of addItem.
    method AddWhere(item: ItemStack, used: bool) returns (newItem: ItemStack)
      modifies this
      ensures var r := AddPass(old(items), item, max, used); items == r.items && newItem == r.rest
    {
      hide Adding, AddToStack, AddPass;
      newItem := item;
      var i := 0;
      AddingStarts(items, item, max, used);
      while i < |items| && !newItem.Empty()
        invariant i <= |items| && Adding(old(items), items, i, item, newItem, max, used)
      {
        AddingStep(old(items), items, i, item, newItem, max, used);
        assert items[i := items[i]] == items;
        if items[i].Empty() != used {
          newItem := AddItemAt(i, newItem);
        }
        i := i + 1;
      }
      AddingEnds(old(items), items, i, item, newItem, max, used);
    }

    method AddItem(newItem: ItemStack) returns (leftover: ItemStack)
      modifies this
      ensures var r := AddToList(old(items), newItem, max); items == r.items && leftover == r.rest
    {
      leftover := AddWhere(newItem, true);
      leftover := AddWhere(leftover, false);
    }

    // Whether addItem would leave nothing; for an empty item, whether there is a slot at all.
    method RoomForItem(item: ItemStack) returns (room: bool)
      ensures item.Empty() ==> (room <==> items != [])
      ensures !item.Empty() ==> (room <==> RoomFor(items, item, max))
      ensures !item.Empty() ==> (room <==> AddToList(items, item, max).rest.Empty())
    {
      AddToListRest(items, item, max);
      hide AddToList, RoomFor, RoomSoFar;
      var rest := item;
      var i := 0;
      RoomStarts(items, item, max);
      while i < |items|
        invariant i <= |items| && (item.Empty() ==> i == 0 && rest == item)
        invariant !item.Empty() ==> RoomSoFar(items, i, item, rest, max)
      {
        var leftover := LeftOver(items[i], rest, max);
        if !item.Empty() {
          RoomStep(items, i, item, rest, max);
        }
        if leftover.Empty() {
          return true;
        }
        rest := leftover;
        i := i + 1;
      }
      if !item.Empty() {
        RoomEnds(items, item, rest, max);
      }
      return false;
    }

    method ContainsItem(item: ItemStack, matchMeta: bool) returns (contains: bool)
      ensures contains <==> item.count <= Total(items, KindOf(item, matchMeta))
    {
      ghost var k := KindOf(item, matchMeta);
      var count: nat := item.count;
      if count == 0 {
        return true;
      }
      var i := |items|;
      assert items[i..] == [];
      while i > 0
        invariant i <= |items| && count > 0 && count + Total(items[i..], k) == item.count
      {
        i := i - 1;
        assert items[i..] == [items[i]] + items[i + 1..];
        TotalConcat(items[..i], items[i..], k);
        assert items == items[..i] + items[i..];
        var s := items[i];
        if s.name == item.name && (!matchMeta || s.metadata == item.metadata) {
          if s.count >= count {
            return true;
          }
          count := count - s.count;
        }
      }
      assert items[0..] == items;
      return false;
    }

    method RemoveItem(item: ItemStack, matchMeta: bool) returns (removed: ItemStack)
      modifies this
      ensures var r := RemoveRight(old(items), item.count, KindOf(item, matchMeta), NO_ITEM, max);
        items == r.items && removed == r.removed
      ensures removed.count == item.count <==> item.count <= Total(old(items), KindOf(item, matchMeta))
    {
      hide Removing, RemoveRight, Join, TakeFromStack, AddToStack, Total;
      ghost var k := KindOf(item, matchMeta);
      RemoveRightCounts(items, item.count, k, NO_ITEM, max);
      removed := NO_ITEM;
      var i: nat := |items|;
      RemovingStarts(items, item.count, k, max);
      while i > 0
        invariant i <= |items| && Removing(old(items), items, i, item.count, k, removed, max)
      {
        RemovingStep(old(items), items, i - 1, item.count, k, removed, max);
        i := i - 1;
        var s := items[i];
        if s.name == item.name && (!matchMeta || s.metadata == item.metadata) {
          var stillToRemove := item.count - removed.count;
          var t := TakeFromStack(s, stillToRemove);
          items := items[i := t.stack];
          JoinIs(removed, t.taken, max);
          var a := AddToStack(removed, t.taken, max);
          removed := a.stack.(count := a.stack.count + a.rest.count);
          if removed.count == item.count {
            return;
          }
        }
      }
      RemovingEnds(old(items), items, item.count, k, removed, max);
    }

    // Moves between two slots; out of range, or onto the slot itself, nothing changes.
    method MoveItem(i: nat, dest: InventoryList, destI: nat, count: nat, swapIfNeeded: bool)
      returns (moved: ItemStack, didSwap: bool)
      modifies this, dest
      ensures i >= |old(items)| || (this == dest && i == destI) ==>
        items == old(items) && dest.items == old(dest.items)
      ensures i < |old(items)| && destI >= |old(dest.items)| ==>
        && items == old(items)[i := if old(items)[i].Empty() && count == 0 then NO_ITEM else old(items)[i]]
        && (this != dest ==> dest.items == old(dest.items))
      ensures i < |old(items)| && destI < |old(dest.items)| && (this != dest || i != destI) ==>
        var m := MoveSlots(old(items)[i], old(dest.items)[destI], count, swapIfNeeded, dest.max);
        && moved == m.moved && didSwap == m.didSwap
        && items == (if this == dest then old(items)[i := m.source][destI := m.dest] else old(items)[i := m.source])
        && (this != dest ==> dest.items == old(dest.items)[destI := m.dest])
    {
      hide AddToStack, TakeFromStack;
      didSwap := false;
      if this == dest && i == destI {
        return NO_ITEM, false;
      }
      if i >= |items| && destI < |dest.items| {
        AddNothing(dest.items[destI], dest.max);
      } else if i < |items| {
        PutBackAll(items[i], count);
        if destI < |dest.items| {
          PutBack(items[i], dest.items[destI], count, dest.max);
        }
      }
      moved := TakeAt(i, count);
      var leftover := dest.AddItemAt(destI, moved);
      if !leftover.Empty() {
        moved, didSwap := PutLeftover(i, dest, destI, moved, leftover, swapIfNeeded);
      }
    }

    // A count of 0 takes the whole stack.
    method TakeAt(i: nat, count: nat) returns (taken: ItemStack)
      modifies this
      ensures i >= |old(items)| ==> items == old(items) && taken == NO_ITEM
      ensures i < |old(items)| ==>
        var t := TakeForMove(old(items)[i], count); items == old(items)[i := t.stack] && taken == t.taken
    {
      if count == 0 {
        taken := ChangeItem(i, NO_ITEM);
      } else {
        taken := TakeItem(i, count);
      }
    }

    // What the destination did not take goes back to the source, or the stacks change places.
    method PutLeftover(i: nat, dest: InventoryList, destI: nat, taken: ItemStack, leftover: ItemStack,
                       swapIfNeeded: bool)
      returns (moved: ItemStack, didSwap: bool)
      requires i < |items| && (this != dest || i != destI) && leftover.count <= taken.count
      requires leftover.count + items[i].count <= taken.count + items[i].count <= 0xFFFF
      modifies this, dest
      ensures var back := leftover.(count := leftover.count + old(items)[i].count);
        var rest := RemoveCount(taken, leftover.count);
        && didSwap == (rest.Empty() && swapIfNeeded)
        && (didSwap ==>
          && moved == back
          && (destI >= |old(dest.items)| ==>
            items == old(items)[i := back] && (this != dest ==> dest.items == old(dest.items)))
          && (destI < |old(dest.items)| ==>
            && items == (if this == dest then old(items)[i := old(items)[destI]][destI := back]
              else old(items)[i := old(dest.items)[destI]])
            && (this != dest ==> dest.items == old(dest.items)[destI := back])))
        && (!didSwap ==>
          && moved == rest && items == old(items)[i := back]
          && (this != dest ==> dest.items == old(dest.items)))
    {
      didSwap := false;
      moved := RemoveCount(taken, leftover.count);
      var back := leftover.(count := leftover.count + items[i].count);
      var _ := ChangeItem(i, back);
      if moved.Empty() && swapIfNeeded {
        didSwap := true;
        moved := ChangeItem(i, NO_ITEM);
        var item2 := dest.ChangeItem(destI, moved);
        var _ := ChangeItem(i, item2);
      }
    }

    // Moves into whatever slots of the list take the items; what is left over stays.
    method MoveItemSomewhere(i: nat, dest: InventoryList, count: nat)
      modifies this, dest
      ensures i >= |old(items)| ==> items == old(items) && dest.items == old(dest.items)
      ensures i < |old(items)| && this == dest ==> items == MoveWithin(old(items), i, count, max)
      ensures i < |old(items)| && this != dest ==>
        var (slot, list) := MoveAway(old(items)[i], old(dest.items), count, dest.max);
        items == old(items)[i := slot] && dest.items == list
    {
      hide AddToList, TakeFromStack;
      var item1;
      if count == 0 {
        item1 := ChangeItem(i, NO_ITEM);
      } else {
        item1 := TakeItem(i, count);
      }
      if item1.Empty() {
        AddEmpty(dest.items, item1, dest.max);
        return;
      }
      BackBounded(old(items)[i], dest.items, count, dest.max);
      BackWithinBounded(old(items), i, count, max);
      var leftover := dest.AddItem(item1);
      if !leftover.Empty() {
        leftover := leftover.(count := leftover.count + items[i].count);
        var _ := ChangeItem(i, leftover);
      }
    }
  }

  lemma AddEmpty(items: seq<ItemStack>, item: ItemStack, max: StackMax)
    requires item.Empty()
    ensures AddToList(items, item, max) == ListAdded(items, item)
  {
  }

  // ---- the loops of the list's methods

  // Slots before i have been offered the item, of which newItem is left.
  ghost predicate Adding(was: seq<ItemStack>, items: seq<ItemStack>, i: nat, item: ItemStack, newItem: ItemStack,
                         max: StackMax, used: bool)
  {
    && i <= |items| == |was| && items[i..] == was[i..]
    && var s := AddPass(was[i..], newItem, max, used);
      AddPass(was, item, max, used) == ListAdded(items[..i] + s.items, s.rest)
  }

  lemma AddingStarts(was: seq<ItemStack>, item: ItemStack, max: StackMax, used: bool)
    ensures Adding(was, was, 0, item, item, max, used)
  {
    assert was[0..] == was;
    var s := AddPass(was, item, max, used);
    assert was[..0] + s.items == s.items;
  }

  lemma AddPassHead(was: seq<ItemStack>, i: nat, newItem: ItemStack, max: StackMax, used: bool)
    requires i < |was| && !newItem.Empty()
    ensures var a := if was[i].Empty() == used then Added(was[i], newItem) else AddToStack(was[i], newItem, max);
      var s := AddPass(was[i + 1..], a.rest, max, used);
      AddPass(was[i..], newItem, max, used) == ListAdded([a.stack] + s.items, s.rest)
  {
    assert was[i..][0] == was[i] && was[i..][1..] == was[i + 1..];
  }

  lemma AddingStep(was: seq<ItemStack>, items: seq<ItemStack>, i: nat, item: ItemStack, newItem: ItemStack,
                   max: StackMax, used: bool)
    requires Adding(was, items, i, item, newItem, max, used) && i < |items| && !newItem.Empty()
    ensures var a := if items[i].Empty() == used then Added(items[i], newItem) else AddToStack(items[i], newItem, max);
      Adding(was, items[i := a.stack], i + 1, item, a.rest, max, used)
  {
    hide AddPass, AddToStack;
    var a := if items[i].Empty() == used then Added(items[i], newItem) else AddToStack(items[i], newItem, max);
    assert items[i] == items[i..][0] == was[i..][0] == was[i];
    AddPassHead(was, i, newItem, max, used);
    var items' := items[i := a.stack];
    var s := AddPass(was[i + 1..], a.rest, max, used);
    assert items'[..i + 1] == items[..i] + [a.stack];
    assert items[..i] + ([a.stack] + s.items) == items'[..i + 1] + s.items;
    assert items'[i + 1..] == items[i..][1..] == was[i..][1..] == was[i + 1..];
  }

  lemma AddingEnds(was: seq<ItemStack>, items: seq<ItemStack>, i: nat, item: ItemStack, newItem: ItemStack,
                   max: StackMax, used: bool)
    requires Adding(was, items, i, item, newItem, max, used) && (i == |items| || newItem.Empty())
    ensures AddPass(was, item, max, used) == ListAdded(items, newItem)
  {
    assert items == items[..i] + items[i..];
  }

  // The first i slots are used and have no room for the whole item; rest would be left over.
  ghost predicate RoomSoFar(items: seq<ItemStack>, i: nat, item: ItemStack, rest: ItemStack, max: StackMax) {
    && i <= |items| && !HasEmpty(items[..i]) && SameKind(rest, item) && rest.count > 0
    && rest.count + Free(items[..i], item, max) == item.count
  }

  lemma RoomStarts(items: seq<ItemStack>, item: ItemStack, max: StackMax)
    ensures !item.Empty() ==> RoomSoFar(items, 0, item, item, max)
  {
    assert items[..0] == [];
  }

  lemma {:induction false} FreeConcat(a: seq<ItemStack>, b: seq<ItemStack>, item: ItemStack, max: StackMax)
    ensures Free(a + b, item, max) == Free(a, item, max) + Free(b, item, max)
  {
    if a == [] {
      assert a + b == b;
    } else {
      assert (a + b)[1..] == a[1..] + b;
      FreeConcat(a[1..], b, item, max);
    }
  }

  lemma FreeSnoc(items: seq<ItemStack>, i: nat, item: ItemStack, max: StackMax)
    requires i < |items|
    ensures Free(items[..i + 1], item, max)
      == Free(items[..i], item, max) + if !items[i].Empty() && SameKind(items[i], item) then FreeSpace(items[i], max)
        else 0
    ensures Free(items, item, max) >= Free(items[..i + 1], item, max)
  {
    assert items[..i + 1] == items[..i] + [items[i]];
    FreeConcat(items[..i], [items[i]], item, max);
    assert items == items[..i + 1] + items[i + 1..];
    FreeConcat(items[..i + 1], items[i + 1..], item, max);
  }

  lemma RoomStep(items: seq<ItemStack>, i: nat, item: ItemStack, rest: ItemStack, max: StackMax)
    requires RoomSoFar(items, i, item, rest, max) && i < |items|
    ensures LeftOver(items[i], rest, max).Empty() ==> RoomFor(items, item, max)
    ensures !LeftOver(items[i], rest, max).Empty() ==> RoomSoFar(items, i + 1, item, LeftOver(items[i], rest, max), max)
  {
    hide Free;
    FreeSnoc(items, i, item, max);
    if !LeftOver(items[i], rest, max).Empty() {
      assert items[..i + 1] == items[..i] + [items[i]];
      assert forall j :: 0 <= j < i ==> items[..i + 1][j] == items[..i][j];
    }
  }

  lemma RoomEnds(items: seq<ItemStack>, item: ItemStack, rest: ItemStack, max: StackMax)
    requires RoomSoFar(items, |items|, item, rest, max)
    ensures !RoomFor(items, item, max)
  {
    assert items[..|items|] == items;
  }

  lemma JoinIs(removed: ItemStack, taken: ItemStack, max: StackMax)
    requires removed.count + taken.count < 0x1_0000
    ensures var a := AddToStack(removed, taken, max);
      a.stack.count + a.rest.count < 0x1_0000
        && Join(removed, taken, max) == a.stack.(count := a.stack.count + a.rest.count)
  {
  }

  // Slots from i on have been taken from.
  ghost predicate Removing(was: seq<ItemStack>, items: seq<ItemStack>, i: nat, want: u16, k: Kind, removed: ItemStack,
                           max: StackMax)
  {
    && i <= |items| == |was| && items[..i] == was[..i] && removed.count <= want
    && var s := RemoveRight(was[..i], want, k, removed, max);
      RemoveRight(was, want, k, NO_ITEM, max) == ListRemoved(s.items + items[i..], s.removed)
  }

  lemma RemovingStarts(was: seq<ItemStack>, want: u16, k: Kind, max: StackMax)
    ensures Removing(was, was, |was|, want, k, NO_ITEM, max)
  {
    assert was[..|was|] == was && was[|was|..] == [];
    var s := RemoveRight(was, want, k, NO_ITEM, max);
    assert s.items + [] == s.items;
  }

  lemma RemovingStep(was: seq<ItemStack>, items: seq<ItemStack>, i: nat, want: u16, k: Kind, removed: ItemStack,
                     max: StackMax)
    requires Removing(was, items, i + 1, want, k, removed, max) && i < |items|
    ensures !Counts(items[i], k) ==> Removing(was, items, i, want, k, removed, max)
    ensures Counts(items[i], k) ==> var t := TakeFromStack(items[i], want - removed.count);
      && removed.count + t.taken.count <= want
      && var removed', items' := Join(removed, t.taken, max), items[i := t.stack];
      if removed'.count == want then RemoveRight(was, want, k, NO_ITEM, max) == ListRemoved(items', removed')
      else Removing(was, items', i, want, k, removed', max)
  {
    hide Removing, Counts, TakeFromStack, Join, RemoveRight;
    if Counts(items[i], k) {
      RemovingTake(was, items, i, want, k, removed, max);
    } else {
      RemovingSkip(was, items, i, want, k, removed, max);
    }
  }

  lemma RemovingSkip(was: seq<ItemStack>, items: seq<ItemStack>, i: nat, want: u16, k: Kind, removed: ItemStack,
                     max: StackMax)
    requires Removing(was, items, i + 1, want, k, removed, max) && i < |items| && !Counts(items[i], k)
    ensures Removing(was, items, i, want, k, removed, max)
  {
    hide Counts, TakeFromStack, Join;
    var part := was[..i + 1];
    assert part == items[..i + 1] && part[..i] == was[..i] == items[..i] && part[i] == items[i];
    var s := RemoveRight(was[..i], want, k, removed, max);
    assert (s.items + [items[i]]) + items[i + 1..] == s.items + items[i..];
  }

  lemma RemovingTake(was: seq<ItemStack>, items: seq<ItemStack>, i: nat, want: u16, k: Kind, removed: ItemStack,
                     max: StackMax)
    requires Removing(was, items, i + 1, want, k, removed, max) && i < |items| && Counts(items[i], k)
    ensures var t := TakeFromStack(items[i], want - removed.count);
      && removed.count + t.taken.count <= want
      && var removed', items' := Join(removed, t.taken, max), items[i := t.stack];
      if removed'.count == want then RemoveRight(was, want, k, NO_ITEM, max) == ListRemoved(items', removed')
      else Removing(was, items', i, want, k, removed', max)
  {
    var part := was[..i + 1];
    assert part == items[..i + 1] && part[..i] == was[..i] == items[..i] && part[i] == items[i];
    TakenBounded(items[i], want - removed.count);
    hide Counts, TakeFromStack;
    var t := TakeFromStack(items[i], want - removed.count);
    JoinCount(removed, t.taken, max);
    hide Join;
    var removed', items' := Join(removed, t.taken, max), items[i := t.stack];
    if removed'.count == want {
      assert was[..i] + [t.stack] + items[i + 1..] == items';
    } else {
      var s := RemoveRight(was[..i], want, k, removed', max);
      assert (s.items + [t.stack]) + items[i + 1..] == s.items + items'[i..];
    }
  }

  lemma TakenBounded(s: ItemStack, n: nat)
    ensures TakeFromStack(s, n).taken.count <= n
  {
  }

  lemma RemovingEnds(was: seq<ItemStack>, items: seq<ItemStack>, want: u16, k: Kind, removed: ItemStack, max: StackMax)
    requires Removing(was, items, 0, want, k, removed, max)
    ensures RemoveRight(was, want, k, NO_ITEM, max) == ListRemoved(items, removed)
  {
    assert was[..0] == [] && items[0..] == items;
    assert [] + items == items;
  }

  lemma {:induction false} NothingToCount(items: seq<ItemStack>, k: Kind)
    requires forall i :: 0 <= i < |items| ==> items[i] == NO_ITEM
    ensures Total(items, k) == 0
  {
    if items != [] {
      NothingToCount(items[1..], k);
    }
  }
}
