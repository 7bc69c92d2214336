// What becomes of names, wear and metadata when stacks are added, taken and moved, and how many items go
// where (src/inventory.cpp:373-474, 672-863).

module StackLaws {
  import opened Numbers
  import opened Items
  import opened Stacks

  // The same item, in whatever number.
  predicate SameItem(a: ItemStack, b: ItemStack) {
    a.name == b.name && a.wear == b.wear && a.metadata == b.metadata
  }

  // A slot after something was added to its list: a used one holds what it held, and no less of it; an
  // empty one is still empty or holds the item added.
  predicate Grown(was: ItemStack, now: ItemStack, item: ItemStack) {
    if was.count > 0 then SameItem(now, was) && now.count >= was.count
    else now == was || (SameItem(now, item) && 0 < now.count <= item.count)
  }

  lemma AddsToStack(s: ItemStack, item: ItemStack, max: StackMax)
    ensures var a := AddToStack(s, item, max);
      Grown(s, a.stack, item)
        && (a.rest.count > 0 ==> SameItem(a.rest, item))
    ensures s.count == 0 && item.count > 0 ==> AddToStack(s, item, max).stack == item
    ensures s.count > 0 && item.count > 0 && s.name == item.name && s.metadata == item.metadata ==>
      var all := s.count + item.count;
      AddToStack(s, item, max).stack.count ==
        if all <= max(s.name) then all else if s.count < max(s.name) then max(s.name) else s.count
    ensures s.count > 0 && (s.name != item.name || s.metadata != item.metadata) ==>
      AddToStack(s, item, max).stack == s
    ensures var a := AddToStack(s, item, max);
      a.stack.count + a.rest.count == s.count + item.count
  {
  }

  lemma {:induction false} PassAdds(items: seq<ItemStack>, item: ItemStack, max: StackMax, used: bool)
    ensures var r := AddPass(items, item, max, used);
      && |r.items| == |items| && (r.rest.count > 0 ==> SameItem(r.rest, item) && r.rest.count <= item.count)
      && (forall i :: 0 <= i < |items| ==> Grown(items[i], r.items[i], item))
      && forall i :: 0 <= i < |items| && items[i].Empty() == used ==> r.items[i] == items[i]
  {
    hide AddToStack;
    if items != [] && !item.Empty() {
      if items[0].Empty() == used {
        PassAdds(items[1..], item, max, used);
      } else {
        AddsToStack(items[0], item, max);
        PassAdds(items[1..], AddToStack(items[0], item, max).rest, max, used);
      }
    }
  }

  // Adding to a list changes no wear and no metadata.
  lemma ListAdds(items: seq<ItemStack>, item: ItemStack, max: StackMax)
    ensures var r := AddToList(items, item, max);
      && |r.items| == |items| && (r.rest.count > 0 ==> SameItem(r.rest, item) && r.rest.count <= item.count)
      && forall i :: 0 <= i < |items| ==> Grown(items[i], r.items[i], item)
  {
    PassAdds(items, item, max, true);
    var r := AddPass(items, item, max, true);
    PassAdds(r.items, r.rest, max, false);
  }

  // What is taken is the item itself, and so is what stays.
  lemma Takes(s: ItemStack, n: nat)
    ensures var t := TakeFromStack(s, n);
      && t.taken.count == (if n < s.count then n else s.count) && t.taken.count + t.stack.count == s.count
      && (t.taken.count > 0 ==> SameItem(t.taken, s)) && (t.stack.count > 0 ==> SameItem(t.stack, s))
  {
  }

  // A move between two slots: exchanged, they hold what the other one held. Else the source has what
  // is left of it, and the destination is still what it was, or, if it was empty, what was moved.
  lemma Moves(s: ItemStack, d: ItemStack, count: nat, swapIfNeeded: bool, max: StackMax)
    ensures var m := MoveSlots(s, d, count, swapIfNeeded, max);
      && (m.didSwap ==> m.source == d && m.dest == s && m.moved == s)
      && (!m.didSwap ==>
            && (m.source.count > 0 ==> SameItem(m.source, s)) && (m.moved.count > 0 ==> SameItem(m.moved, s))
            && Grown(d, m.dest, s))
  {
    hide AddToStack, TakeFromStack;
    Takes(s, count);
    var t := TakeForMove(s, count);
    AddsToStack(d, t.taken, max);
    AddRestBounded(d, t.taken, max);
    if count == 0 {
      AddsToStack(d, s, max);
    }
  }

  // A move to anywhere in another list, and within one.
  lemma MovesAway(s: ItemStack, list: seq<ItemStack>, count: nat, max: StackMax)
    ensures var (left, now) := MoveAway(s, list, count, max);
      && |now| == |list| && (left.count > 0 ==> SameItem(left, s))
      && forall i :: 0 <= i < |list| ==> Grown(list[i], now[i], s)
  {
    hide AddToList, TakeFromStack;
    Takes(s, count);
    var t := TakeForMove(s, count);
    ListAdds(list, t.taken, max);
    BackBounded(s, list, count, max);
    if t.taken.count == 0 {
      NothingAdded(list, t.taken, max);
    }
  }

  lemma NothingAdded(items: seq<ItemStack>, item: ItemStack, max: StackMax)
    requires item.count == 0
    ensures AddToList(items, item, max) == ListAdded(items, item)
  {
  }

  lemma MovesWithin(items: seq<ItemStack>, i: nat, count: nat, max: StackMax)
    requires i < |items|
    ensures var now := MoveWithin(items, i, count, max);
      && |now| == |items| && (now[i].count > 0 ==> SameItem(now[i], items[i]))
      && forall j :: 0 <= j < |items| && j != i ==> Grown(items[j], now[j], items[i])
  {
    hide AddToList, TakeFromStack;
    Takes(items[i], count);
    var t := TakeForMove(items[i], count);
    ListAdds(items[i := t.stack], t.taken, max);
    BackWithinBounded(items, i, count, max);
    if t.taken.count == 0 {
      NothingAdded(items[i := t.stack], t.taken, max);
    }
  }

  // ---- removing

  // What is joined to something removed before changes only its number.
  lemma Joins(removed: ItemStack, taken: ItemStack, max: StackMax)
    requires removed.count + taken.count < 0x1_0000
    ensures var j := Join(removed, taken, max);
      && j.count == removed.count + taken.count
      && (removed.count > 0 ==> SameItem(j, removed)) && (removed.count == 0 && taken.count > 0 ==> j == taken)
  {
  }

  // Removing leaves every slot what it was, or empties it, and takes nothing from other kinds. What is
  // removed is the item of the slot it was taken from first.
  lemma {:induction false} Removes(items: seq<ItemStack>, want: u16, k: Kind, removed: ItemStack, max: StackMax)
    requires removed.count <= want
    ensures var r := RemoveRight(items, want, k, removed, max);
      && |r.items| == |items|
      && (forall i :: 0 <= i < |items| ==>
            r.items[i] == items[i]
            || (items[i].name == k.name && (r.items[i].count > 0 ==> SameItem(r.items[i], items[i]))))
      && (removed.count > 0 ==> SameItem(r.removed, removed))
      && (removed.count == 0 && r.removed.count > 0 ==>
            exists i :: 0 <= i < |items| && items[i].name == k.name && SameItem(r.removed, items[i]))
    decreases |items|
  {
    hide TakeFromStack, Join;
    if items != [] {
      var before, last := items[..|items| - 1], items[|items| - 1];
      if !Counts(last, k) {
        Removes(before, want, k, removed, max);
      } else {
        var t := TakeFromStack(last, want - removed.count);
        Takes(last, want - removed.count);
        Joins(removed, t.taken, max);
        var removed' := Join(removed, t.taken, max);
        if removed'.count < want {
          Removes(before, want, k, removed', max);
        }
      }
    }
  }

  // ---- empty stacks have no name

  lemma StacksStayValid(s: ItemStack, item: ItemStack, n: nat, max: StackMax)
    requires s.Valid() && item.Valid()
    ensures AddToStack(s, item, max).stack.Valid() && AddToStack(s, item, max).rest.Valid()
    ensures TakeFromStack(s, n).stack.Valid() && TakeFromStack(s, n).taken.Valid()
  {
  }

  ghost predicate AllValid(items: seq<ItemStack>) {
    forall i :: 0 <= i < |items| ==> items[i].Valid()
  }

  lemma {:induction false} PassStaysValid(items: seq<ItemStack>, item: ItemStack, max: StackMax, used: bool)
    requires AllValid(items) && item.Valid()
    ensures AllValid(AddPass(items, item, max, used).items) && AddPass(items, item, max, used).rest.Valid()
  {
    hide AddToStack;
    if items != [] && !item.Empty() {
      if items[0].Empty() == used {
        PassStaysValid(items[1..], item, max, used);
      } else {
        StacksStayValid(items[0], item, 0, max);
        PassStaysValid(items[1..], AddToStack(items[0], item, max).rest, max, used);
      }
    }
  }

  lemma ListStaysValid(items: seq<ItemStack>, item: ItemStack, max: StackMax)
    requires AllValid(items) && item.Valid()
    ensures AllValid(AddToList(items, item, max).items) && AddToList(items, item, max).rest.Valid()
  {
    PassStaysValid(items, item, max, true);
    var r := AddPass(items, item, max, true);
    PassStaysValid(r.items, r.rest, max, false);
  }

  lemma MovesStayValid(s: ItemStack, d: ItemStack, count: nat, swapIfNeeded: bool, max: StackMax)
    requires s.Valid() && d.Valid()
    ensures var m := MoveSlots(s, d, count, swapIfNeeded, max);
      m.source.Valid() && m.dest.Valid() && m.moved.Valid()
  {
    hide AddToStack, TakeFromStack;
    StacksStayValid(s, d, count, max);
    var t := TakeForMove(s, count);
    StacksStayValid(d, t.taken, count, max);
    AddRestBounded(d, t.taken, max);
  }
}
