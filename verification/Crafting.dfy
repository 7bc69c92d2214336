// Craft definitions, their checks, and the hash index of the definition manager
// (src/craftdef.cpp:34-65, 351-410, 426-464, 594-707, 724-780, 848-910, 950-1010, 1041-1103, 1188-1238).

module CraftDefinitions {
  import opened Arithmetic
  import opened Numbers
  import opened Graphs
  import opened HopcroftKarp
  import opened Items
  import opened Assignments
  import opened CraftGrids
  import opened ShapedRecipes

  datatype CraftMethod = NORMAL | COOKING | FUEL

  datatype CraftInput = CraftInput(method_: CraftMethod, width: nat, items: seq<ItemStack>)
  {
    predicate Empty() {
      forall item :: item in items ==> item.Empty()
    }

    ghost predicate Valid() {
      forall item :: item in items ==> item.Valid()
    }
  }

  type Priority = p: nat | 1 <= p <= 5 witness 1

  // recipeNames and recipeName hold item names, with itemstrings and aliases already resolved;
  // output is the name of the item crafted.
  datatype CraftDefinition =
    | Shaped(output: string, priority: Priority, width: nat, recipeNames: seq<string>)
    | Shapeless(output: string, priority: Priority, recipeNames: seq<string>)
    | ToolRepair(priority: Priority, additionalWear: real)
    | Cooking(output: string, priority: Priority, recipeName: string)
    | Fuel(priority: Priority, recipeName: string)

  function ItemNames(items: seq<ItemStack>): (names: seq<string>)
    ensures |names| == |items|
    ensures forall i :: 0 <= i < |items| ==> names[i] == items[i].name
  {
    seq(|items|, i requires 0 <= i < |items| => items[i].name)
  }

  function Occupied(items: seq<ItemStack>): seq<ItemStack> {
    if items == [] then [] else Occupied(items[..|items| - 1]) + if items[|items| - 1].Empty() then []
      else [items[|items| - 1]]
  }

  function GroupSlots(names: seq<string>): seq<string> {
    if names == [] then []
    else GroupSlots(names[..|names| - 1]) + if IsGroupName(names[|names| - 1]) then [names[|names| - 1]] else []
  }

  function ExactSlots(names: seq<string>): seq<string> {
    if names == [] then []
    else ExactSlots(names[..|names| - 1]) + if IsGroupName(names[|names| - 1]) then [] else [names[|names| - 1]]
  }

  // Two single, equal, repairable tools give one with the remaining uses added up.
  function CraftToolRepair(idef: ItemDefs, item1: ItemStack, item2: ItemStack, additionalWear: real): ItemStack
    requires idef.Valid()
  {
    var def := idef.Get(item1.name);
    if item1.count != 1 || item2.count != 1 || item1.name != item2.name || !def.isTool
       || GroupGet(def.groups, "disable_repair") == 1 then NO_ITEM
    else
      var newUses := (65536 - item1.wear) + (65536 - item2.wear);
      var newWear := 65536 - newUses + (additionalWear * 65536.0 + 0.5).Floor;
      if newWear >= 65536 then NO_ITEM else item1.(wear := if newWear < 0 then 0 else newWear)
  }

  // What each kind of definition accepts.
  ghost predicate Accepts(idef: ItemDefs, def: CraftDefinition, input: CraftInput)
    requires idef.Valid()
  {
    var names := ItemNames(input.items);
    match def
    case Shaped(_, _, width, recipe) =>
      input.method_ == NORMAL && ShapedCheck(idef, names, input.width, recipe, width)
    case Shapeless(_, _, recipe) =>
      && input.method_ == NORMAL && Assignable(idef, NonEmpty(names), recipe)
      && |GroupSlots(recipe)| <= SHAPELESS_GROUPS_MAX
    case ToolRepair(_, extra) =>
      && input.method_ == NORMAL && |Occupied(input.items)| == 2
      && !CraftToolRepair(idef, Occupied(input.items)[0], Occupied(input.items)[1], extra).Empty()
    case Cooking(_, _, recipe) =>
      input.method_ == COOKING && |NonEmpty(names)| == 1 && Matches(idef, NonEmpty(names)[0], recipe)
    case Fuel(_, recipe) =>
      input.method_ == FUEL && |NonEmpty(names)| == 1 && Matches(idef, NonEmpty(names)[0], recipe)
  }

  lemma NonEmptySnoc(a: seq<string>, x: string)
    ensures NonEmpty(a + [x]) == if x == "" then NonEmpty(a) else NonEmpty(a) + [x]
  {
    hide NonEmpty;
    NonEmptyConcat(a, [x]);
    NonEmptyCons(x, []);
    assert [x] + [] == [x];
  }

  method FilterEmpty(items: seq<ItemStack>) returns (filtered: seq<string>)
    ensures filtered == NonEmpty(ItemNames(items))
  {
    filtered := [];
    var names := ItemNames(items);
    for i := 0 to |items|
      invariant filtered == NonEmpty(names[..i])
    {
      assert names[..i + 1] == names[..i] + [names[i]];
      NonEmptySnoc(names[..i], names[i]);
      if items[i].name != "" {
        filtered := filtered + [items[i].name];
      }
    }
    assert names[..|items|] == names;
  }

  method CheckOneItem(wanted: CraftMethod, recipeName: string, input: CraftInput, idef: ItemDefs) returns (ok: bool)
    requires idef.Valid()
    ensures ok == (input.method_ == wanted && |NonEmpty(ItemNames(input.items))| == 1
                   && Matches(idef, NonEmpty(ItemNames(input.items))[0], recipeName))
  {
    if input.method_ != wanted {
      return false;
    }
    var filtered := FilterEmpty(input.items);
    if |filtered| != 1 {
      return false;
    }
    ok := InputItemMatchesRecipe(filtered[0], recipeName, idef);
  }

  // Items i and j are the only ones, single tools of one name that can be repaired, and the wear that
  // is left after their uses are added up, less the additional one, is not that of a broken tool.
  ghost predicate RepairsTwo(idef: ItemDefs, items: seq<ItemStack>, extra: real, i: nat, j: nat)
    requires idef.Valid()
  {
    && i < j < |items| && items[i].count == 1 && items[j].count == 1 && items[i].name == items[j].name
    && (forall k :: 0 <= k < |items| && k != i && k != j ==> items[k].count == 0)
    && var groups := idef.Get(items[i].name).groups;
      && idef.Get(items[i].name).isTool && ("disable_repair" !in groups || groups["disable_repair"] != 1)
      && items[i].wear + items[j].wear - 65536 + (extra * 65536.0 + 0.5).Floor < 65536
  }

  // The tool made is the first one with that wear, or as good as new.
  lemma RepairGives(idef: ItemDefs, items: seq<ItemStack>, extra: real, i: nat, j: nat)
    requires idef.Valid() && RepairsTwo(idef, items, extra, i, j)
    ensures |Occupied(items)| == 2
    ensures var wear := items[i].wear + items[j].wear - 65536 + (extra * 65536.0 + 0.5).Floor;
      CraftToolRepair(idef, Occupied(items)[0], Occupied(items)[1], extra)
        == ItemStack(items[i].name, 1, if wear < 0 then 0 else wear, items[i].metadata)
  {
    hide Occupied;
    OccupiedTwo(items, i, j);
  }

  // And nothing is made of anything else.
  lemma RepairsExactly(idef: ItemDefs, items: seq<ItemStack>, extra: real)
    requires idef.Valid()
    ensures |Occupied(items)| == 2 && !CraftToolRepair(idef, Occupied(items)[0], Occupied(items)[1], extra).Empty()
      <==> exists i: nat, j: nat :: RepairsTwo(idef, items, extra, i, j)
  {
    hide Occupied;
    forall i: nat, j: nat | RepairsTwo(idef, items, extra, i, j)
      ensures |Occupied(items)| == 2 && !CraftToolRepair(idef, Occupied(items)[0], Occupied(items)[1], extra).Empty()
    {
      OccupiedTwo(items, i, j);
    }
    if |Occupied(items)| == 2 && !CraftToolRepair(idef, Occupied(items)[0], Occupied(items)[1], extra).Empty() {
      var i, j := TwoOccupied(items);
      OccupiedTwo(items, i, j);
      assert RepairsTwo(idef, items, extra, i, j);
    }
  }

  lemma {:induction false} NoneOccupied(items: seq<ItemStack>)
    ensures Occupied(items) == [] <==> forall k :: 0 <= k < |items| ==> items[k].count == 0
  {
    if items != [] {
      NoneOccupied(items[..|items| - 1]);
    }
  }

  lemma {:induction false} OneOccupied(items: seq<ItemStack>, i: nat)
    requires i < |items| && items[i].count != 0
    requires forall k :: 0 <= k < |items| && k != i ==> items[k].count == 0
    ensures Occupied(items) == [items[i]]
  {
    var n := |items| - 1;
    if i == n {
      NoneOccupied(items[..n]);
    } else {
      OneOccupied(items[..n], i);
    }
  }

  lemma {:induction false} OccupiedTwo(items: seq<ItemStack>, i: nat, j: nat)
    requires i < j < |items| && items[i].count != 0 && items[j].count != 0
    requires forall k :: 0 <= k < |items| && k != i && k != j ==> items[k].count == 0
    ensures Occupied(items) == [items[i], items[j]]
  {
    var n := |items| - 1;
    if j == n {
      OneOccupied(items[..n], i);
    } else {
      OccupiedTwo(items[..n], i, j);
    }
  }

  lemma {:induction false} OccupiedAt(items: seq<ItemStack>) returns (i: nat)
    requires |Occupied(items)| == 1
    ensures i < |items| && items[i].count != 0
    ensures forall k :: 0 <= k < |items| && k != i ==> items[k].count == 0
  {
    var n := |items| - 1;
    if items[n].Empty() {
      i := OccupiedAt(items[..n]);
    } else {
      i := n;
      NoneOccupied(items[..n]);
    }
  }

  lemma {:induction false} TwoOccupied(items: seq<ItemStack>) returns (i: nat, j: nat)
    requires |Occupied(items)| == 2
    ensures i < j < |items| && items[i].count != 0 && items[j].count != 0
    ensures forall k :: 0 <= k < |items| && k != i && k != j ==> items[k].count == 0
  {
    var n := |items| - 1;
    if items[n].Empty() {
      i, j := TwoOccupied(items[..n]);
    } else {
      i := OccupiedAt(items[..n]);
      j := n;
    }
  }

  // The kind of craft, and for a repair the two tools.
  method CheckToolRepair(def: CraftDefinition, input: CraftInput, idef: ItemDefs) returns (ok: bool)
    requires idef.Valid() && def.ToolRepair?
    ensures ok == Accepts(idef, def, input)
    ensures ok <==>
      input.method_ == NORMAL && exists i: nat, j: nat :: RepairsTwo(idef, input.items, def.additionalWear, i, j)
  {
    hide RepairsTwo;
    RepairsExactly(idef, input.items, def.additionalWear);
    if input.method_ != NORMAL {
      return false;
    }
    var item1, item2 := NO_ITEM, NO_ITEM;
    for i := 0 to |input.items|
      invariant item1.Empty() ==> item2.Empty()
      invariant Occupied(input.items[..i]) ==
        (if item1.Empty() then [] else [item1]) + (if item2.Empty() then [] else [item2])
    {
      var item := input.items[i];
      assert input.items[..i + 1][..i] == input.items[..i];
      if !item.Empty() {
        if item1.Empty() {
          item1 := item;
        } else if item2.Empty() {
          item2 := item;
        } else {
          OccupiedPrefix(input.items, i + 1);
          return false;
        }
      }
    }
    assert input.items[..|input.items|] == input.items;
    var repaired := CraftToolRepair(idef, item1, item2, def.additionalWear);
    return !repaired.Empty();
  }

  lemma {:induction false} OccupiedPrefix(items: seq<ItemStack>, i: nat)
    requires i <= |items|
    ensures |Occupied(items[..i])| <= |Occupied(items)|
    decreases |items| - i
  {
    if i < |items| {
      assert items[..i + 1][..i] == items[..i];
      OccupiedPrefix(items, i + 1);
    } else {
      assert items[..i] == items;
    }
  }

  // ---- shaped

  lemma BlankAtEnd(names: seq<string>, width: nat)
    ensures forall x, y :: Cell(names + [""], width, x, y) == Cell(names, width, x, y)
  {
  }

  lemma BoundsOfSameCells(a: seq<string>, b: seq<string>, width: nat)
    requires forall x, y :: Cell(a, width, x, y) == Cell(b, width, x, y)
    ensures forall bounds :: IsBounds(a, width, bounds) <==> IsBounds(b, width, bounds)
  {
    hide Cell;
  }

  // Fills the last row up with blanks.
  method PadRow(names: seq<string>, width: nat) returns (padded: seq<string>)
    requires width > 0
    ensures |padded| % width == 0
    ensures forall x, y :: Cell(padded, width, x, y) == Cell(names, width, x, y)
    ensures (exists i :: 0 <= i < |padded| && padded[i] != "") <==> (exists i :: 0 <= i < |names| && names[i] != "")
  {
    hide Cell;
    padded := names;
    ghost var target := (|names| / width + 1) * width;
    RowEnd(|names|, width);
    while |padded| % width != 0
      invariant names <= padded && |padded| <= target
      invariant forall i :: |names| <= i < |padded| ==> padded[i] == ""
      invariant forall x, y :: Cell(padded, width, x, y) == Cell(names, width, x, y)
      decreases target - |padded|
    {
      BlankAtEnd(padded, width);
      padded := padded + [""];
    }
  }

  lemma RowEnd(n: nat, width: nat)
    requires width > 0
    ensures n < (n / width + 1) * width && (n / width + 1) * width % width == 0
  {
    MultipleMod(n / width + 1, width);
    assert n == n / width * width + n % width;
  }

  // Every cell of the bounding box is stored inside the padded matrix.
  lemma BoxInside(names: seq<string>, width: nat, b: Bounds, x: nat, y: nat)
    requires width > 0 && |names| % width == 0 && IsBounds(names, width, b) && b.Contains(x, y)
    ensures y * width + x < |names| && names[y * width + x] == Cell(names, width, x, y)
  {
    var last, inRow := CornerInside(names, width, b);
    RowInside(|names|, width, b.maxY, inRow, x, y);
  }

  lemma RowInside(n: nat, width: nat, row: nat, inRow: nat, x: nat, y: nat)
    requires width > 0 && n % width == 0 && row * width + inRow < n && y <= row && x < width
    ensures y * width + x < n
  {
    var rows := n / width;
    assert n == rows * width;
    if rows <= y {
      MulMonotone(rows, y, width);
      MulMonotone(y, row, width);
    } else {
      MulMonotone(y + 1, rows, width);
      assert (y + 1) * width == y * width + width;
    }
  }

  lemma CornerInside(names: seq<string>, width: nat, b: Bounds) returns (last: nat, inRow: nat)
    requires IsBounds(names, width, b)
    ensures b.maxX < width && last == b.maxY * width + inRow && last < |names|
  {
    hide Cell;
    var y1 :| Cell(names, width, b.maxX, y1) != "";
    var x1 :| Cell(names, width, x1, b.maxY) != "";
    var j := CellIndex(names, width, b.maxX, y1);
    last := CellIndex(names, width, x1, b.maxY);
    inRow := x1;
  }

  method CheckShaped(def: CraftDefinition, input: CraftInput, idef: ItemDefs) returns (ok: bool)
    requires idef.Valid() && def.Shaped?
    ensures ok == Accepts(idef, def, input)
  {
    hide Cell, IsBounds, BoxMatch, Matches;
    ghost var inp, rec := ItemNames(input.items), def.recipeNames;
    if input.method_ != NORMAL {
      return false;
    }
    var inpWidth := input.width;
    if inpWidth == 0 {
      return false;
    }
    var inpNames := PadRow(ItemNames(input.items), inpWidth);
    BoundsOfSameCells(inpNames, inp, inpWidth);
    var inpAny, bi := CraftGetBounds(inpNames, inpWidth);
    if !inpAny {
      BlankHasNoBounds(inp, inpWidth);
      return false;
    }
    var recWidth := def.width;
    if recWidth == 0 {
      return false;
    }
    var recNames := PadRow(def.recipeNames, recWidth);
    BoundsOfSameCells(recNames, rec, recWidth);
    var recAny, br := CraftGetBounds(recNames, recWidth);
    if !recAny {
      BlankHasNoBounds(rec, recWidth);
      return false;
    }
    assert Accepts(idef, def, input) == BoxMatch(idef, inpNames, inpWidth, bi, recNames, recWidth, br) by {
      BoxMatchSameCells(idef, inpNames, inp, inpWidth, recNames, rec, recWidth, bi, br);
      OnlyTheseBounds(idef, inp, inpWidth, bi, rec, recWidth, br);
    }
    BoundsOrdered(inpNames, inpWidth, bi);
    BoundsOrdered(recNames, recWidth, br);
    if bi.maxX - bi.minX != br.maxX - br.minX || bi.maxY - bi.minY != br.maxY - br.minY {
      BoxMatchNeedsSize(idef, inpNames, inpWidth, bi, recNames, recWidth, br);
      return false;
    }
    var w, h := bi.maxX - bi.minX + 1, bi.maxY - bi.minY + 1;
    for y := 0 to h
      invariant BoxRowsMatch(idef, inpNames, inpWidth, bi, recNames, recWidth, br, y, 0)
    {
      var inpY, recY := (bi.minY + y) * inpWidth, (br.minY + y) * recWidth;
      for x := 0 to w
        invariant BoxRowsMatch(idef, inpNames, inpWidth, bi, recNames, recWidth, br, y, x)
      {
        var inpX, recX := bi.minX + x, br.minX + x;
        BoxInside(inpNames, inpWidth, bi, inpX, bi.minY + y);
        BoxInside(recNames, recWidth, br, recX, br.minY + y);
        var fits := InputItemMatchesRecipe(inpNames[inpY + inpX], recNames[recY + recX], idef);
        BoxRowsNext(idef, inpNames, inpWidth, bi, recNames, recWidth, br, y, x, fits);
        if !fits {
          return false;
        }
      }
      BoxRowsWrap(idef, inpNames, inpWidth, bi, recNames, recWidth, br, y);
    }
    BoxRowsDone(idef, inpNames, inpWidth, bi, recNames, recWidth, br);
    return true;
  }

  lemma BlankHasNoBounds(names: seq<string>, width: nat)
    requires forall i :: 0 <= i < |names| ==> names[i] == ""
    ensures forall b :: !IsBounds(names, width, b)
  {
    BlankCells(names, width);
  }

  lemma OnlyTheseBounds(idef: ItemDefs, inp: seq<string>, iw: nat, bi: Bounds, rec: seq<string>, rw: nat, br: Bounds)
    requires idef.Valid() && iw > 0 && rw > 0 && IsBounds(inp, iw, bi) && IsBounds(rec, rw, br)
    ensures ShapedCheck(idef, inp, iw, rec, rw) == BoxMatch(idef, inp, iw, bi, rec, rw, br)
  {
    hide IsBounds, BoxMatch;
    if ShapedCheck(idef, inp, iw, rec, rw) {
      var bi', br' :| IsBounds(inp, iw, bi') && IsBounds(rec, rw, br') && BoxMatch(idef, inp, iw, bi', rec, rw, br');
      BoundsUnique(inp, iw, bi, bi');
      BoundsUnique(rec, rw, br, br');
    }
  }

  lemma BoxMatchSameCells(idef: ItemDefs, inp: seq<string>, inp': seq<string>, iw: nat, rec: seq<string>,
                          rec': seq<string>, rw: nat,
                          bi: Bounds, br: Bounds)
    requires idef.Valid()
    requires forall x, y :: Cell(inp, iw, x, y) == Cell(inp', iw, x, y)
    requires forall x, y :: Cell(rec, rw, x, y) == Cell(rec', rw, x, y)
    ensures BoxMatch(idef, inp, iw, bi, rec, rw, br) == BoxMatch(idef, inp', iw, bi, rec', rw, br)
  {
    hide Cell, Matches;
  }

  lemma BoundsOrdered(names: seq<string>, width: nat, b: Bounds)
    requires IsBounds(names, width, b)
    ensures b.minX <= b.maxX && b.minY <= b.maxY
  {
    hide Cell;
    var y :| Cell(names, width, b.minX, y) != "";
  }

  lemma BoxMatchNeedsSize(idef: ItemDefs, inp: seq<string>, iw: nat, bi: Bounds, rec: seq<string>, rw: nat, br: Bounds)
    requires idef.Valid()
    ensures BoxMatch(idef, inp, iw, bi, rec, rw, br) ==>
      bi.maxX - bi.minX == br.maxX - br.minX && bi.maxY - bi.minY == br.maxY - br.minY
  {
  }

  // The first rows of the two boxes match, and the first columns of row y.
  ghost predicate BoxRowsMatch(idef: ItemDefs, inp: seq<string>, iw: nat, bi: Bounds, rec: seq<string>, rw: nat,
                               br: Bounds, y: nat, x: nat)
    requires idef.Valid()
  {
    var dx, dy := bi.minX - br.minX, bi.minY - br.minY;
    forall u, v {:trigger Cell(inp, iw, u, v)} ::
      bi.Contains(u, v) && (v < bi.minY + y || (v == bi.minY + y && u < bi.minX + x)) ==>
        Matches(idef, Cell(inp, iw, u, v), Cell(rec, rw, u - dx, v - dy))
  }

  lemma BoxRowsNext(idef: ItemDefs, inp: seq<string>, iw: nat, bi: Bounds, rec: seq<string>, rw: nat, br: Bounds,
                    y: nat, x: nat, fits: bool)
    requires idef.Valid() && BoxRowsMatch(idef, inp, iw, bi, rec, rw, br, y, x)
    requires bi.Contains(bi.minX + x, bi.minY + y)
    requires fits == Matches(idef, Cell(inp, iw, bi.minX + x, bi.minY + y), Cell(rec, rw, br.minX + x, br.minY + y))
    ensures fits ==> BoxRowsMatch(idef, inp, iw, bi, rec, rw, br, y, x + 1)
    ensures !fits ==> !BoxMatch(idef, inp, iw, bi, rec, rw, br)
  {
    hide Cell, Matches;
  }

  lemma BoxRowsWrap(idef: ItemDefs, inp: seq<string>, iw: nat, bi: Bounds, rec: seq<string>, rw: nat, br: Bounds,
                    y: nat)
    requires idef.Valid() && bi.minX <= bi.maxX
    requires BoxRowsMatch(idef, inp, iw, bi, rec, rw, br, y, bi.maxX - bi.minX + 1)
    ensures BoxRowsMatch(idef, inp, iw, bi, rec, rw, br, y + 1, 0)
  {
    hide Cell, Matches;
  }

  lemma BoxRowsDone(idef: ItemDefs, inp: seq<string>, iw: nat, bi: Bounds, rec: seq<string>, rw: nat, br: Bounds)
    requires idef.Valid() && bi.minY <= bi.maxY
    requires bi.maxX - bi.minX == br.maxX - br.minX && bi.maxY - bi.minY == br.maxY - br.minY
    requires BoxRowsMatch(idef, inp, iw, bi, rec, rw, br, bi.maxY - bi.minY + 1, 0)
    ensures BoxMatch(idef, inp, iw, bi, rec, rw, br)
  {
    hide Cell, Matches;
  }

  // ---- shapeless

  lemma {:induction false} SlotsSplit(names: seq<string>)
    ensures multiset(names) == multiset(GroupSlots(names)) + multiset(ExactSlots(names))
    ensures forall x :: x in GroupSlots(names) ==> IsGroupName(x)
    ensures NoGroups(ExactSlots(names))
  {
    hide IsGroupName;
    if names != [] {
      var front, last := names[..|names| - 1], names[|names| - 1];
      SlotsSplit(front);
      assert names == front + [last];
    }
  }

  // How many group slots there are does not depend on their order.
  lemma GroupSlotsOf(a: seq<string>, b: seq<string>)
    requires multiset(a) == multiset(b)
    ensures |GroupSlots(a)| == |GroupSlots(b)|
  {
    SlotsSplit(a);
    SlotsSplit(b);
    forall x ensures multiset(GroupSlots(a))[x] == multiset(GroupSlots(b))[x] {
      assert multiset(GroupSlots(a))[x] == if IsGroupName(x) then multiset(a)[x] else 0 by {
        assert x in multiset(GroupSlots(a)) ==> IsGroupName(x);
        assert x in multiset(ExactSlots(a)) ==> !IsGroupName(x);
      }
      assert multiset(GroupSlots(b))[x] == if IsGroupName(x) then multiset(b)[x] else 0 by {
        assert x in multiset(GroupSlots(b)) ==> IsGroupName(x);
        assert x in multiset(ExactSlots(b)) ==> !IsGroupName(x);
      }
    }
    assert multiset(GroupSlots(a)) == multiset(GroupSlots(b));
    assert |multiset(GroupSlots(a))| == |GroupSlots(a)| && |multiset(GroupSlots(b))| == |GroupSlots(b)|;
  }

  lemma {:induction false} ExactSlotsSorted(names: seq<string>)
    requires Sorted(names)
    ensures Sorted(ExactSlots(names))
  {
    if names != [] {
      var front, last := names[..|names| - 1], names[|names| - 1];
      ExactSlotsSorted(front);
      SlotsSplit(front);
      forall x | x in ExactSlots(front) ensures !Less(last, x) {
        assert x in multiset(ExactSlots(front)) && x in multiset(front);
        assert x in front;
      }
    }
  }

  method Partition(names: seq<string>) returns (onlyGroup: seq<string>, noGroup: seq<string>)
    ensures onlyGroup == GroupSlots(names) && noGroup == ExactSlots(names)
  {
    onlyGroup, noGroup := [], [];
    for i := 0 to |names|
      invariant onlyGroup == GroupSlots(names[..i]) && noGroup == ExactSlots(names[..i])
    {
      assert names[..i + 1][..i] == names[..i];
      if IsGroupName(names[i]) {
        onlyGroup := onlyGroup + [names[i]];
      } else {
        noGroup := noGroup + [names[i]];
      }
    }
    assert names[..|names|] == names;
  }

  // The merge loop of std::set_difference on sorted ranges.
  method SetDifference(a: seq<string>, b: seq<string>) returns (d: seq<string>)
    requires Sorted(a) && Sorted(b)
    ensures multiset(d) == multiset(a) - multiset(b)
  {
    d := [];
    var i, j := 0, 0;
    assert a[0..] == a && b[0..] == b;
    while i < |a|
      invariant i <= |a| && j <= |b|
      invariant multiset(d) + (multiset(a[i..]) - multiset(b[j..])) == multiset(a) - multiset(b)
      decreases |a| - i + |b| - j
    {
      MergeStep(a, b, i, j);
      if j < |b| && !Less(a[i], b[j]) {
        if !Less(b[j], a[i]) {
          i := i + 1;
        }
        j := j + 1;
      } else {
        d := d + [a[i]];
        i := i + 1;
      }
    }
  }

  lemma MergeStep(a: seq<string>, b: seq<string>, i: nat, j: nat)
    requires Sorted(a) && Sorted(b) && i < |a| && j <= |b|
    ensures var rest := multiset(a[i..]) - multiset(b[j..]);
      if j < |b| && !Less(a[i], b[j]) then
        if !Less(b[j], a[i]) then rest == multiset(a[i + 1..]) - multiset(b[j + 1..])
        else rest == multiset(a[i..]) - multiset(b[j + 1..])
      else rest == multiset{a[i]} + (multiset(a[i + 1..]) - multiset(b[j..]))
  {
    assert a[i..] == [a[i]] + a[i + 1..];
    if j < |b| {
      assert b[j..] == [b[j]] + b[j + 1..];
      LessTotal(a[i], b[j]);
      if Less(a[i], b[j]) {
        forall k | j <= k < |b| ensures b[k] != a[i] {
          LessTotal(b[j], b[k]);
        }
        assert a[i] !in b[j..];
      } else if Less(b[j], a[i]) {
        forall k | i <= k < |a| ensures a[k] != b[j] {
          LessTotal(a[i], a[k]);
        }
        assert b[j] !in a[i..];
      }
    }
  }

  // graph[i] lists the group slots that item i fits.
  method BuildGraph(items: seq<string>, slots: seq<string>, idef: ItemDefs) returns (graph: seq<seq<u16>>)
    requires idef.Valid() && |items| == |slots| <= SHAPELESS_GROUPS_MAX
    ensures IsGraph(graph) && |graph| == |items|
    ensures HasPerfectMatching(graph) <==> Assignable(idef, items, slots)
  {
    hide Matches;
    var n: u16 := |slots|;
    graph := [];
    for i := 0 to n
      invariant |graph| == i
      invariant forall u, j: nat :: 0 <= u < i && j < n ==> (j in graph[u] <==> Matches(idef, items[u], slots[j]))
      invariant forall u, k :: 0 <= u < i && 0 <= k < |graph[u]| ==> graph[u][k] < n
    {
      var neighbours: seq<u16> := [];
      for j := 0 to n
        invariant forall v: nat :: v < j ==> (v in neighbours <==> Matches(idef, items[i], slots[v]))
        invariant forall k :: 0 <= k < |neighbours| ==> neighbours[k] < j
      {
        var fits := InputItemMatchesRecipe(items[i], slots[j], idef);
        if fits {
          neighbours := neighbours + [j];
        }
      }
      graph := graph + [neighbours];
    }
    GraphIsAssignment(idef, items, slots, graph);
  }

  lemma GraphIsAssignment(idef: ItemDefs, items: seq<string>, slots: seq<string>, graph: seq<seq<u16>>)
    requires idef.Valid() && |items| == |slots| == |graph| && IsGraph(graph)
    requires forall u, j: nat :: 0 <= u < |graph| && j < |graph| ==>
      (j in graph[u] <==> Matches(idef, items[u], slots[j]))
    ensures HasPerfectMatching(graph) <==> Assignable(idef, items, slots)
  {
    hide Matches;
    if m :| IsPerfectMatching(graph, m) {
      forall i | 0 <= i < |m| ensures m[i] < |slots| && Matches(idef, items[i], slots[m[i]]) {
        assert m[i] in graph[i];
      }
      assert IsAssignment(idef, items, slots, m);
    }
    if m :| IsAssignment(idef, items, slots, m) {
      assert IsPerfectMatching(graph, m);
    }
  }

  // Why the prefilter decides nothing on its own: either an exact-name slot stays unfilled,
  // or what is left of the input faces exactly the group slots.
  lemma PrefilterSound(idef: ItemDefs, inp: seq<string>, recipe: seq<string>, rest: seq<string>,
                       groups: seq<string>, exact: seq<string>)
    requires idef.Valid() && |inp| == |recipe| && NoGroups(exact)
    requires multiset(recipe) == multiset(groups) + multiset(exact)
    requires multiset(rest) == multiset(inp) - multiset(exact)
    ensures |inp| - |rest| == |exact| ==> |rest| == |groups|
    ensures |inp| - |rest| == |exact| ==> (Assignable(idef, inp, recipe) <==> Assignable(idef, rest, groups))
    ensures |inp| - |rest| != |exact| ==> !Assignable(idef, inp, recipe)
  {
    hide Assignable;
    assert |multiset(inp)| == |inp| && |multiset(rest)| == |rest| && |multiset(exact)| == |exact|;
    assert |multiset(recipe)| == |recipe| && |multiset(groups)| == |groups|;
    if multiset(exact) <= multiset(inp) {
      assert multiset(inp) == multiset(exact) + multiset(rest);
      ExactNamesFirst(idef, exact, rest, groups);
      if Assignable(idef, inp, recipe) {
        ReorderAssignment(idef, inp, recipe, exact + rest, exact + groups);
      }
      if Assignable(idef, exact + rest, exact + groups) {
        ReorderAssignment(idef, exact + rest, exact + groups, inp, recipe);
      }
    } else {
      ShortDifference(multiset(inp), multiset(exact));
      if Assignable(idef, inp, recipe) {
        ReorderAssignment(idef, inp, recipe, inp, exact + groups);
        ExactNamesPresent(idef, inp, exact, groups);
      }
    }
  }

  lemma ShortDifference(a: multiset<string>, b: multiset<string>)
    requires !(b <= a)
    ensures |a| - |a - b| != |b|
  {
    var common := a * b;
    assert a == common + (a - b);
    assert b == common + (b - a);
    assert b - a != multiset{};
  }

  method CheckShapeless(def: CraftDefinition, input: CraftInput, idef: ItemDefs) returns (ok: bool)
    requires idef.Valid() && def.Shapeless?
    ensures ok == Accepts(idef, def, input)
  {
    if input.method_ != NORMAL {
      return false;
    }
    var filtered := FilterEmpty(input.items);
    if |filtered| != |def.recipeNames| {
      return false;
    }
    hide Assignable;
    var sorted, recipeCopy := Sort(filtered), Sort(def.recipeNames);
    SortSorted(filtered);
    SortSorted(def.recipeNames);
    var onlyGroup, noGroup := Partition(recipeCopy);
    ExactSlotsSorted(recipeCopy);
    SlotsSplit(recipeCopy);
    GroupSlotsOf(recipeCopy, def.recipeNames);
    var inputForGroup := SetDifference(sorted, noGroup);
    PrefilterSound(idef, filtered, def.recipeNames, inputForGroup, onlyGroup, noGroup);
    assert |sorted| == |filtered| by {
      assert |multiset(sorted)| == |sorted| && |multiset(filtered)| == |filtered|;
    }
    if |sorted| - |inputForGroup| != |noGroup| {
      return false;
    }
    if |onlyGroup| > SHAPELESS_GROUPS_MAX {
      return false;
    }
    var bipGraph := BuildGraph(inputForGroup, onlyGroup, idef);
    ok := HopcroftKarpCanMatchAll(bipGraph);
  }

  // Item i is the only one with a name, and fits the slot.
  ghost predicate FitsAlone(idef: ItemDefs, items: seq<ItemStack>, i: nat, slot: string)
    requires idef.Valid()
  {
    && i < |items| && items[i].name != "" && Matches(idef, items[i].name, slot)
    && forall k :: 0 <= k < |items| && k != i ==> items[k].name == ""
  }

  lemma {:induction false} NoNames(names: seq<string>)
    ensures NonEmpty(names) == [] <==> forall k :: 0 <= k < |names| ==> names[k] == ""
  {
    NonEmptyMembers(names);
    if NonEmpty(names) != [] {
      assert NonEmpty(names)[0] in NonEmpty(names);
    } else {
      assert forall k :: 0 <= k < |names| ==> names[k] in names;
    }
  }

  lemma {:induction false} OneName(names: seq<string>, i: nat)
    requires i < |names| && names[i] != "" && forall k :: 0 <= k < |names| && k != i ==> names[k] == ""
    ensures NonEmpty(names) == [names[i]]
  {
    if i == 0 {
      NoNames(names[1..]);
    } else {
      OneName(names[1..], i - 1);
    }
  }

  lemma {:induction false} NameAlone(names: seq<string>) returns (i: nat)
    requires |NonEmpty(names)| == 1
    ensures i < |names| && names[i] != "" && forall k :: 0 <= k < |names| && k != i ==> names[k] == ""
  {
    if names[0] != "" {
      i := 0;
      NoNames(names[1..]);
      assert forall k :: 0 < k < |names| ==> names[1..][k - 1] == names[k];
    } else {
      i := NameAlone(names[1..]);
      i := i + 1;
      assert forall k :: 0 < k < |names| ==> names[1..][k - 1] == names[k];
    }
  }

  lemma OneItemExactly(idef: ItemDefs, items: seq<ItemStack>, slot: string)
    requires idef.Valid()
    ensures |NonEmpty(ItemNames(items))| == 1 && Matches(idef, NonEmpty(ItemNames(items))[0], slot)
      <==> exists i: nat :: FitsAlone(idef, items, i, slot)
  {
    hide NonEmpty, Matches;
    forall i: nat | FitsAlone(idef, items, i, slot)
      ensures |NonEmpty(ItemNames(items))| == 1 && Matches(idef, NonEmpty(ItemNames(items))[0], slot)
    {
      OneName(ItemNames(items), i);
    }
    if |NonEmpty(ItemNames(items))| == 1 && Matches(idef, NonEmpty(ItemNames(items))[0], slot) {
      var i := NameAlone(ItemNames(items));
      OneName(ItemNames(items), i);
      assert FitsAlone(idef, items, i, slot);
    }
  }

  lemma {:induction false} GroupSlotCount(names: seq<string>)
    ensures |GroupSlots(names)| == |set i: nat | i < |names| && IsGroupName(names[i])|
  {
    hide IsGroupName;
    if names != [] {
      var n := |names| - 1;
      GroupSlotCount(names[..n]);
      var before := set i: nat | i < n && IsGroupName(names[..n][i]);
      var all := set i: nat | i < |names| && IsGroupName(names[i]);
      assert all == before + if IsGroupName(names[n]) then {n} else {};
    }
  }

  // What each kind of definition takes: the method, and what the items have to be.
  lemma AcceptsByKind(idef: ItemDefs, def: CraftDefinition, input: CraftInput)
    requires idef.Valid()
    ensures def.Shaped? ==>
      (Accepts(idef, def, input) <==>
       input.method_ == NORMAL
       && ShapedCheck(idef, ItemNames(input.items), input.width, def.recipeNames, def.width))
    ensures def.Shapeless? ==>
      (Accepts(idef, def, input) <==>
       input.method_ == NORMAL && Assignable(idef, NonEmpty(ItemNames(input.items)), def.recipeNames)
       && |set i: nat | i < |def.recipeNames| && IsGroupName(def.recipeNames[i])| <= 30000)
    ensures def.ToolRepair? ==>
      (Accepts(idef, def, input) <==>
       input.method_ == NORMAL
       && exists i: nat, j: nat :: RepairsTwo(idef, input.items, def.additionalWear, i, j))
    ensures def.Cooking? ==>
      (Accepts(idef, def, input) <==>
       input.method_ == COOKING && exists i: nat :: FitsAlone(idef, input.items, i, def.recipeName))
    ensures def.Fuel? ==>
      (Accepts(idef, def, input) <==>
       input.method_ == FUEL && exists i: nat :: FitsAlone(idef, input.items, i, def.recipeName))
  {
    hide ShapedCheck, Assignable, RepairsTwo, FitsAlone, NonEmpty, IsGroupName, CraftToolRepair, Occupied, GroupSlots;
    match def
    case Shaped(_, _, _, _) =>
    case Shapeless(_, _, recipe) => GroupSlotCount(recipe);
    case ToolRepair(_, extra) => RepairsExactly(idef, input.items, extra);
    case Cooking(_, _, slot) => OneItemExactly(idef, input.items, slot);
    case Fuel(_, slot) => OneItemExactly(idef, input.items, slot);
  }

  method Check(def: CraftDefinition, input: CraftInput, idef: ItemDefs) returns (ok: bool)
    requires idef.Valid()
    ensures ok == Accepts(idef, def, input)
  {
    match def
    case Shaped(_, _, _, _) => ok := CheckShaped(def, input, idef);
    case Shapeless(_, _, _) => ok := CheckShapeless(def, input, idef);
    case ToolRepair(_, _) => ok := CheckToolRepair(def, input, idef);
    case Cooking(_, _, recipeName) => ok := CheckOneItem(COOKING, recipeName, input, idef);
    case Fuel(_, recipeName) => ok := CheckOneItem(FUEL, recipeName, input, idef);
  }
}
