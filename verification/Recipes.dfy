// Crafting recipes and their checks (src/craftdef.cpp:143-174, 351-464, 594-707, 740-910, 950-976).

module CraftGrids {
  import opened Arithmetic
  import opened Items

  // The non-empty names in reading order.
  function NonEmpty(names: seq<string>): seq<string> {
    if names == [] then [] else (if names[0] == "" then [] else [names[0]]) + NonEmpty(names[1..])
  }

  lemma {:induction false} NonEmptyMembers(names: seq<string>)
    ensures forall x :: x in NonEmpty(names) <==> x in names && x != ""
  {
    if names != [] {
      NonEmptyMembers(names[1..]);
      assert names == [names[0]] + names[1..];
    }
  }

  lemma NonEmptyCons(x: string, t: seq<string>)
    ensures NonEmpty([x] + t) == (if x == "" then [] else [x]) + NonEmpty(t)
    ensures NonEmpty([]) == []
  {
    assert ([x] + t)[1..] == t;
  }

  lemma {:induction false} NonEmptyConcat(a: seq<string>, b: seq<string>)
    ensures NonEmpty(a + b) == NonEmpty(a) + NonEmpty(b)
  {
    hide NonEmpty;
    NonEmptyCons("", []);
    if a == [] {
      assert a + b == b;
    } else {
      NonEmptyConcat(a[1..], b);
      NonEmptyCons(a[0], a[1..]);
      NonEmptyCons(a[0], a[1..] + b);
      assert a == [a[0]] + a[1..] && a + b == [a[0]] + (a[1..] + b);
    }
  }

  lemma NonEmptyOfBlanks(a: seq<string>)
    requires forall i :: 0 <= i < |a| ==> a[i] == ""
    ensures NonEmpty(a) == []
  {
  }

  lemma {:induction false} NonEmptyMultiset(a: seq<string>)
    ensures multiset(NonEmpty(a)) == multiset(a)["" := 0]
  {
    if a != [] {
      NonEmptyMultiset(a[1..]);
      assert a == [a[0]] + a[1..];
    }
  }

  // The name at column x, row y of a matrix stored row by row; "" outside it.
  function Cell(names: seq<string>, width: nat, x: int, y: int): string {
    if 0 <= x < width && 0 <= y && y * width + x < |names| then
      assert 0 <= y * width;
      names[y * width + x]
    else ""
  }

  datatype Bounds = Bounds(minX: nat, maxX: nat, minY: nat, maxY: nat) {
    predicate Contains(x: int, y: int) {
      minX <= x <= maxX && minY <= y <= maxY
    }
  }

  // The smallest rectangle around the non-empty cells.
  ghost predicate IsBounds(names: seq<string>, width: nat, b: Bounds) {
    && (forall x, y :: Cell(names, width, x, y) != "" ==> b.Contains(x, y))
    && (exists y :: Cell(names, width, b.minX, y) != "")
    && (exists y :: Cell(names, width, b.maxX, y) != "")
    && (exists x :: Cell(names, width, x, b.minY) != "")
    && (exists x :: Cell(names, width, x, b.maxY) != "")
  }

  method CraftGetBounds(items: seq<string>, width: nat) returns (success: bool, b: Bounds)
    requires width > 0
    ensures success <==> exists i :: 0 <= i < |items| && items[i] != ""
    ensures success ==> IsBounds(items, width, b)
  {
    hide IsBounds;
    success := false;
    b := Bounds(0, 0, 0, 0);
    var x, y := 0, 0;
    for i := 0 to |items|
      invariant x < width && 0 <= y && i == y * width + x
      invariant success <==> exists k :: 0 <= k < i && items[k] != ""
      invariant success ==> IsBounds(items[..i], width, b)
    {
      ghost var before, after := items[..i], items[..i + 1];
      assert after == before + [items[i]];
      if items[i] != "" {
        if !success {
          FirstCell(before, items[i], after, width, x, y);
          b := Bounds(x, x, y, y);
          success := true;
        } else {
          GrowBounds(before, items[i], after, width, x, y, b);
          b := Bounds(if x < b.minX then x else b.minX, if x > b.maxX then x else b.maxX,
                      if y < b.minY then y else b.minY, if y > b.maxY then y else b.maxY);
        }
      } else if success {
        GrowBounds(before, items[i], after, width, x, y, b);
      }
      x := x + 1;
      if x == width {
        x, y := 0, y + 1;
        assert y * width == (y - 1) * width + width;
      }
    }
    assert items[..|items|] == items;
  }

  // Reading one more entry fills exactly the cell it is stored for.
  lemma NextCell(before: seq<string>, item: string, after: seq<string>, width: nat, x: nat, y: nat)
    requires after == before + [item] && x < width && |before| == y * width + x
    ensures Cell(before, width, x, y) == ""
    ensures forall x', y' ::
      Cell(after, width, x', y') == (if x' == x && y' == y then item else Cell(before, width, x', y'))
  {
    forall x', y'
      ensures Cell(after, width, x', y') == (if x' == x && y' == y then item else Cell(before, width, x', y'))
    {
      if 0 <= x' < width && 0 <= y' && y' * width + x' == |before| {
        SamePlace(width, x, y, x', y');
      }
    }
  }

  lemma BlankCells(items: seq<string>, width: nat)
    requires forall k :: 0 <= k < |items| ==> items[k] == ""
    ensures forall x, y :: Cell(items, width, x, y) == ""
  {
  }

  lemma FirstCell(before: seq<string>, item: string, after: seq<string>, width: nat, x: nat, y: nat)
    requires after == before + [item] && x < width && |before| == y * width + x && item != ""
    requires forall k :: 0 <= k < |before| ==> before[k] == ""
    ensures IsBounds(after, width, Bounds(x, x, y, y))
  {
    hide Cell;
    BlankCells(before, width);
    NextCell(before, item, after, width, x, y);
    assert Cell(after, width, x, y) != "";
  }

  lemma GrowBounds(before: seq<string>, item: string, after: seq<string>, width: nat, x: nat, y: nat, b: Bounds)
    requires after == before + [item] && x < width && |before| == y * width + x
    requires IsBounds(before, width, b)
    ensures item != "" ==> IsBounds(after, width,
              Bounds(if x < b.minX then x else b.minX, if x > b.maxX then x else b.maxX,
                     if y < b.minY then y else b.minY, if y > b.maxY then y else b.maxY))
    ensures item == "" ==> IsBounds(after, width, b)
  {
    hide Cell;
    NextCell(before, item, after, width, x, y);
    var y0 :| Cell(before, width, b.minX, y0) != "";
    var y1 :| Cell(before, width, b.maxX, y1) != "";
    var x0 :| Cell(before, width, x0, b.minY) != "";
    var x1 :| Cell(before, width, x1, b.maxY) != "";
    assert item != "" ==> Cell(after, width, x, y) != "";
    assert Cell(after, width, b.minX, y0) != "" && Cell(after, width, b.maxX, y1) != "";
    assert Cell(after, width, x0, b.minY) != "" && Cell(after, width, x1, b.maxY) != "";
  }
}

// Shaped recipes: bounding boxes compared cell by cell.
module ShapedRecipes {
  import opened Arithmetic
  import opened Items
  import opened Assignments
  import opened CraftGrids

  // The hand item "" is a known item; no group slot may accept it.
  ghost predicate HandFree(idef: ItemDefs)
    requires idef.Valid()
  {
    forall rec :: IsGroupName(rec) ==> !Matches(idef, "", rec)
  }

  // That is: the hand is not known, or all the groups it is in have a comma in their names, which no
  // slot can spell.
  lemma HandFreeExactly(idef: ItemDefs)
    requires idef.Valid()
    ensures HandFree(idef) <==>
      !idef.IsKnown("") || forall g :: g in idef.Get("").groups && GroupGet(idef.Get("").groups, g) != 0 ==> ',' in g
  {
    hide GroupsFrom, FindComma;
    var groups := idef.Get("").groups;
    if idef.IsKnown("") && exists g :: g in groups && GroupGet(groups, g) != 0 && ',' !in g {
      var g :| g in groups && GroupGet(groups, g) != 0 && ',' !in g;
      OneGroup(g);
      var rec := GROUP_PREFIX + g;
      assert IsGroupName(rec) && rec[|GROUP_PREFIX|..] == g;
      assert Matches(idef, "", rec);
    }
    forall rec | IsGroupName(rec) && Matches(idef, "", rec)
      ensures idef.IsKnown("") && exists g :: g in groups && GroupGet(groups, g) != 0 && ',' !in g
    {
      var spec := rec[|GROUP_PREFIX|..];
      FirstGroup(spec);
      var g := GroupsFrom(spec, 0)[0];
      assert GroupGet(groups, g) != 0;
    }
  }

  lemma FirstGroup(spec: string)
    ensures GroupsFrom(spec, 0) != [] && ',' !in GroupsFrom(spec, 0)[0]
  {
  }

  lemma OneGroup(g: string)
    requires ',' !in g
    ensures GroupsFrom(g, 0) == [g]
  {
    assert FindComma(g, 0) == |g|;
    assert g[0..|g|] == g;
  }

  // Shifting the recipe by (dx, dy) makes every cell of the plane match.
  ghost predicate ShiftMatch(idef: ItemDefs, inp: seq<string>, iw: nat, rec: seq<string>, rw: nat, dx: int, dy: int)
    requires idef.Valid()
  {
    forall x, y {:trigger Cell(inp, iw, x, y)} :: Matches(idef, Cell(inp, iw, x, y), Cell(rec, rw, x - dx, y - dy))
  }

  ghost predicate BoxMatch(idef: ItemDefs, inp: seq<string>, iw: nat, bi: Bounds, rec: seq<string>, rw: nat, br: Bounds)
    requires idef.Valid()
  {
    var dx, dy := bi.minX - br.minX, bi.minY - br.minY;
    && bi.maxX - br.maxX == dx && bi.maxY - br.maxY == dy
    && forall x, y {:trigger Cell(inp, iw, x, y)} :: bi.Contains(x, y) ==>
         Matches(idef, Cell(inp, iw, x, y), Cell(rec, rw, x - dx, y - dy))
  }

  // What the shaped check decides: equal bounding boxes whose cells match.
  ghost predicate ShapedCheck(idef: ItemDefs, inp: seq<string>, iw: nat, rec: seq<string>, rw: nat)
    requires idef.Valid()
  {
    && iw > 0 && rw > 0
    && exists bi, br :: IsBounds(inp, iw, bi) && IsBounds(rec, rw, br) && BoxMatch(idef, inp, iw, bi, rec, rw, br)
  }

  lemma BoundsUnique(names: seq<string>, width: nat, a: Bounds, b: Bounds)
    requires IsBounds(names, width, a) && IsBounds(names, width, b)
    ensures a == b
  {
    hide Cell;
    var y0 :| Cell(names, width, a.minX, y0) != "";
    var y1 :| Cell(names, width, a.maxX, y1) != "";
    var x0 :| Cell(names, width, x0, a.minY) != "";
    var x1 :| Cell(names, width, x1, a.maxY) != "";
    var v0 :| Cell(names, width, b.minX, v0) != "";
    var v1 :| Cell(names, width, b.maxX, v1) != "";
    var u0 :| Cell(names, width, u0, b.minY) != "";
    var u1 :| Cell(names, width, u1, b.maxY) != "";
  }

  lemma IndexIsCell(names: seq<string>, width: nat, i: nat)
    requires width > 0 && i < |names|
    ensures Cell(names, width, i % width, i / width) == names[i]
    ensures i / width * width + i % width == i
  {
    assert i / width * width + i % width == i;
  }

  // A shape is matched exactly when some shift of the recipe matches the whole plane.
  lemma ShapedIsShift(idef: ItemDefs, inp: seq<string>, iw: nat, rec: seq<string>, rw: nat)
    requires idef.Valid() && HandFree(idef) && iw > 0 && rw > 0
    requires exists b :: IsBounds(rec, rw, b)
    ensures ShapedCheck(idef, inp, iw, rec, rw) <==> exists dx, dy :: ShiftMatch(idef, inp, iw, rec, rw, dx, dy)
  {
    if ShapedCheck(idef, inp, iw, rec, rw) {
      var bi, br :| IsBounds(inp, iw, bi) && IsBounds(rec, rw, br) && BoxMatch(idef, inp, iw, bi, rec, rw, br);
      BoxGivesShift(idef, inp, iw, bi, rec, rw, br);
    }
    if dx, dy :| ShiftMatch(idef, inp, iw, rec, rw, dx, dy) {
      var br :| IsBounds(rec, rw, br);
      ShiftGivesBox(idef, inp, iw, rec, rw, br, dx, dy);
    }
  }

  lemma BoxGivesShift(idef: ItemDefs, inp: seq<string>, iw: nat, bi: Bounds, rec: seq<string>, rw: nat, br: Bounds)
    requires idef.Valid() && IsBounds(inp, iw, bi) && IsBounds(rec, rw, br) && BoxMatch(idef, inp, iw, bi, rec, rw, br)
    ensures ShiftMatch(idef, inp, iw, rec, rw, bi.minX - br.minX, bi.minY - br.minY)
  {
    hide Cell, Matches;
    var dx, dy := bi.minX - br.minX, bi.minY - br.minY;
    BlankMatches(idef);
    forall x, y ensures Matches(idef, Cell(inp, iw, x, y), Cell(rec, rw, x - dx, y - dy)) {
      if !bi.Contains(x, y) {
        assert !br.Contains(x - dx, y - dy);
      }
    }
  }

  lemma BlankMatches(idef: ItemDefs)
    requires idef.Valid()
    ensures Matches(idef, "", "")
    ensures forall a :: Matches(idef, a, "") ==> a == ""
    ensures HandFree(idef) ==> forall a, b :: Matches(idef, a, b) ==> (a == "" <==> b == "")
  {
  }

  lemma ShiftGivesBox(idef: ItemDefs, inp: seq<string>, iw: nat, rec: seq<string>, rw: nat, br: Bounds, dx: int,
                      dy: int)
    requires idef.Valid() && HandFree(idef) && iw > 0 && rw > 0
    requires IsBounds(rec, rw, br) && ShiftMatch(idef, inp, iw, rec, rw, dx, dy)
    ensures ShapedCheck(idef, inp, iw, rec, rw)
  {
    hide Matches, Cell, Aligned;
    BlankMatches(idef);
    HandFreeAligns(idef, inp, iw, rec, rw, dx, dy);
    var y0 :| Cell(rec, rw, br.minX, y0) != "";
    var y1 :| Cell(rec, rw, br.maxX, y1) != "";
    var x0 :| Cell(rec, rw, x0, br.minY) != "";
    var x1 :| Cell(rec, rw, x1, br.maxY) != "";
    ShiftedItem(inp, iw, rec, rw, dx, dy, br.minX, y0);
    ShiftedItem(inp, iw, rec, rw, dx, dy, br.maxX, y1);
    ShiftedItem(inp, iw, rec, rw, dx, dy, x0, br.minY);
    ShiftedItem(inp, iw, rec, rw, dx, dy, x1, br.maxY);
    var bi := Bounds(br.minX + dx, br.maxX + dx, br.minY + dy, br.maxY + dy);
    forall x, y | Cell(inp, iw, x, y) != "" ensures bi.Contains(x, y) {
      assert Matches(idef, Cell(inp, iw, x, y), Cell(rec, rw, x - dx, y - dy));
    }
    assert IsBounds(inp, iw, bi);
    assert BoxMatch(idef, inp, iw, bi, rec, rw, br);
  }

  // Where the input is blank the shifted recipe is: no slot takes the hand.
  ghost predicate Aligned(inp: seq<string>, iw: nat, rec: seq<string>, rw: nat, dx: int, dy: int) {
    forall x, y {:trigger Cell(inp, iw, x, y)} :: Cell(inp, iw, x, y) == "" ==> Cell(rec, rw, x - dx, y - dy) == ""
  }

  lemma HandFreeAligns(idef: ItemDefs, inp: seq<string>, iw: nat, rec: seq<string>, rw: nat, dx: int, dy: int)
    requires idef.Valid() && HandFree(idef) && ShiftMatch(idef, inp, iw, rec, rw, dx, dy)
    ensures Aligned(inp, iw, rec, rw, dx, dy)
  {
    hide Matches, Cell;
    BlankMatches(idef);
  }

  lemma ShiftedItem(inp: seq<string>, iw: nat, rec: seq<string>, rw: nat, dx: int, dy: int, x: int, y: int)
    requires Aligned(inp, iw, rec, rw, dx, dy) && Cell(rec, rw, x, y) != ""
    ensures Cell(inp, iw, x + dx, y + dy) != "" && x + dx >= 0 && y + dy >= 0
  {
    assert Cell(inp, iw, x + dx, y + dy) == "" ==> Cell(rec, rw, x + dx - dx, y + dy - dy) == "";
  }

  lemma BlankOne(names: seq<string>, width: nat, i: nat, x: nat, y: nat)
    requires i < |names| && x < width && i == y * width + x
    ensures forall x', y' ::
      Cell(names[i := ""], width, x', y') == (if x' == x && y' == y then "" else Cell(names, width, x', y'))
  {
    var blanked := names[i := ""];
    forall x', y' ensures Cell(blanked, width, x', y') ==
      (if x' == x && y' == y then "" else Cell(names, width, x', y')) {
      if 0 <= x' < width && 0 <= y' {
        var k := y' * width + x';
        if k == i {
          SamePlace(width, x, y, x', y');
        } else {
          assert !(x' == x && y' == y);
          assert k < |names| ==> blanked[k] == names[k];
        }
      }
    }
  }

  lemma BlankOneItem(names: seq<string>, i: nat)
    requires i < |names| && names[i] != ""
    ensures multiset(NonEmpty(names)) == multiset(NonEmpty(names[i := ""])) + multiset{names[i]}
    ensures |NonEmpty(names)| == |NonEmpty(names[i := ""])| + 1
    ensures NoGroups(names) ==> NoGroups(names[i := ""])
  {
    hide NonEmpty;
    var a, b := names[..i], names[i + 1..];
    assert names == a + [names[i]] + b;
    assert names[i := ""] == a + [""] + b;
    NonEmptyMiddle(a, names[i], b);
    NonEmptyMiddle(a, "", b);
    MiddleCounts(NonEmpty(a), names[i], NonEmpty(b));
  }

  lemma NonEmptyMiddle(a: seq<string>, name: string, b: seq<string>)
    ensures NonEmpty(a + [name] + b) == NonEmpty(a) + (if name == "" then [] else [name]) + NonEmpty(b)
  {
    NonEmptyConcat(a + [name], b);
    NonEmptyConcat(a, [name]);
  }

  lemma MiddleCounts(a: seq<string>, name: string, b: seq<string>)
    ensures multiset(a + [name] + b) == multiset(a + [] + b) + multiset{name}
    ensures |a + [name] + b| == |a + [] + b| + 1
  {
  }

  // Blanking a matched pair of cells keeps the match.
  lemma BlankPair(idef: ItemDefs, inp: seq<string>, iw: nat, rec: seq<string>, rw: nat, dx: int, dy: int,
                  i: nat, j: nat, x: nat, y: nat)
    requires idef.Valid() && ShiftMatch(idef, inp, iw, rec, rw, dx, dy)
    requires i < |inp| && j < |rec| && x < iw && i == y * iw + x
    requires 0 <= x - dx < rw && 0 <= y - dy && j == (y - dy) * rw + (x - dx)
    ensures ShiftMatch(idef, inp[i := ""], iw, rec[j := ""], rw, dx, dy)
  {
    hide Cell, Matches;
    BlankMatches(idef);
    BlankOne(inp, iw, i, x, y);
    BlankOne(rec, rw, j, x - dx, y - dy);
    var inp', rec' := inp[i := ""], rec[j := ""];
    forall a, b ensures Matches(idef, Cell(inp', iw, a, b), Cell(rec', rw, a - dx, b - dy)) {
      assert Matches(idef, Cell(inp, iw, a, b), Cell(rec, rw, a - dx, b - dy));
    }
  }

  lemma BlankPairAligned(inp: seq<string>, iw: nat, rec: seq<string>, rw: nat, dx: int, dy: int,
                         i: nat, j: nat, x: nat, y: nat)
    requires Aligned(inp, iw, rec, rw, dx, dy)
    requires i < |inp| && j < |rec| && x < iw && i == y * iw + x
    requires 0 <= x - dx < rw && 0 <= y - dy && j == (y - dy) * rw + (x - dx)
    ensures Aligned(inp[i := ""], iw, rec[j := ""], rw, dx, dy)
  {
    hide Cell;
    BlankOne(inp, iw, i, x, y);
    BlankOne(rec, rw, j, x - dx, y - dy);
    var inp' := inp[i := ""];
    forall a, b | Cell(inp', iw, a, b) == ""
      ensures Cell(rec[j := ""], rw, a - dx, b - dy) == ""
    {
      assert Cell(inp', iw, a, b) == if a == x && b == y then "" else Cell(inp, iw, a, b);
      assert Cell(inp, iw, a, b) == "" ==> Cell(rec, rw, a - dx, b - dy) == "";
    }
  }

  // A matching shift that gives no slot the hand pairs the non-empty cells: as many on both sides,
  // and the same names where the recipe has no groups.
  lemma {:induction false} ShiftPairsItems(idef: ItemDefs, inp: seq<string>, iw: nat, rec: seq<string>, rw: nat,
                                           dx: int, dy: int)
    requires idef.Valid() && iw > 0 && rw > 0
    requires ShiftMatch(idef, inp, iw, rec, rw, dx, dy) && Aligned(inp, iw, rec, rw, dx, dy)
    ensures |NonEmpty(inp)| == |NonEmpty(rec)|
    ensures NoGroups(rec) ==> multiset(NonEmpty(inp)) == multiset(NonEmpty(rec))
    decreases |NonEmpty(inp)|
  {
    hide Matches, Cell, Aligned;
    BlankMatches(idef);
    if NonEmpty(inp) == [] {
      forall j | 0 <= j < |rec| ensures rec[j] == "" {
        BlankRecipe(inp, iw, rec, rw, dx, dy, j);
      }
      NonEmptyOfBlanks(rec);
    } else {
      NonEmptyMembers(inp);
      assert NonEmpty(inp)[0] in NonEmpty(inp);
      var i :| 0 <= i < |inp| && inp[i] == NonEmpty(inp)[0];
      var x, y, j := PartnerCell(idef, inp, iw, rec, rw, dx, dy, i);
      BlankPair(idef, inp, iw, rec, rw, dx, dy, i, j, x, y);
      BlankPairAligned(inp, iw, rec, rw, dx, dy, i, j, x, y);
      BlankOneItem(inp, i);
      BlankOneItem(rec, j);
      ShiftPairsItems(idef, inp[i := ""], iw, rec[j := ""], rw, dx, dy);
    }
  }

  lemma BlankRecipe(inp: seq<string>, iw: nat, rec: seq<string>, rw: nat, dx: int, dy: int, j: nat)
    requires Aligned(inp, iw, rec, rw, dx, dy)
    requires NonEmpty(inp) == [] && rw > 0 && j < |rec|
    ensures rec[j] == ""
  {
    hide Cell, NonEmpty, Aligned;
    IndexIsCell(rec, rw, j);
    NonEmptyMembers(inp);
    forall k | 0 <= k < |inp| ensures inp[k] == "" {
      assert inp[k] in inp;
    }
    BlankCells(inp, iw);
    if rec[j] != "" {
      ShiftedItem(inp, iw, rec, rw, dx, dy, j % rw, j / rw);
    }
  }

  // The recipe place of a non-empty input item.
  lemma PartnerCell(idef: ItemDefs, inp: seq<string>, iw: nat, rec: seq<string>, rw: nat, dx: int, dy: int, i: nat)
    returns (x: nat, y: nat, j: nat)
    requires idef.Valid() && iw > 0
    requires ShiftMatch(idef, inp, iw, rec, rw, dx, dy) && i < |inp| && inp[i] != ""
    ensures x < iw && i == y * iw + x
    ensures 0 <= x - dx < rw && 0 <= y - dy && j == (y - dy) * rw + (x - dx) && j < |rec|
    ensures rec[j] != "" && (NoGroups(rec) ==> inp[i] == rec[j])
  {
    BlankMatches(idef);
    x, y := i % iw, i / iw;
    IndexIsCell(inp, iw, i);
    assert Matches(idef, inp[i], Cell(rec, rw, x - dx, y - dy));
    j := CellIndex(rec, rw, x - dx, y - dy);
    assert rec[j] in rec;
  }

  lemma CellIndex(names: seq<string>, width: nat, x: int, y: int) returns (j: nat)
    requires Cell(names, width, x, y) != ""
    ensures 0 <= x < width && 0 <= y && j == y * width + x && j < |names| && names[j] == Cell(names, width, x, y)
  {
    j := y * width + x;
  }
}
