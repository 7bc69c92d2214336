// The three-layer hash index over all craft definitions (src/craftdef.cpp:34-65, 412-440,
// 687-707, 886-910, 988-1010, 1041-1103, 1188-1235; src/craftdef.h:36-55, 250-259).

module CraftHashes {
  import opened Numbers
  import opened Graphs
  import opened Items
  import opened Assignments
  import opened CraftGrids
  import opened ShapedRecipes
  import opened CraftDefinitions

  // The layers, in the order they are tried.
  datatype HashType = ITEM_NAMES | COUNT | UNHASHED
  {
    function Layer(): nat {
      match this case ITEM_NAMES => 0 case COUNT => 1 case UNHASHED => 2
    }
  }

  function JoinLines(names: seq<string>): string {
    if names == [] then ""
    else if |names| == 1 then names[0]
    else JoinLines(names[..|names| - 1]) + "\n" + names[|names| - 1]
  }

  function Wrap64(n: nat): u64 {
    n % 0x1_0000_0000_0000_0000
  }

  function GridHash(hash: string -> u64, kind: HashType, names: seq<string>): u64 {
    match kind
    case ITEM_NAMES => hash(JoinLines(NonEmpty(names)))
    case COUNT => Wrap64(|NonEmpty(names)|)
    case UNHASHED => 0
  }

  method GetHashForGrid(hash: string -> u64, kind: HashType, names: seq<string>) returns (h: u64)
    ensures h == GridHash(hash, kind, names)
  {
    match kind
    case ITEM_NAMES =>
      var os := JoinNames(names);
      h := hash(os);
    case COUNT =>
      h := CountNames(names);
    case UNHASHED =>
      h := 0;
  }

  method JoinNames(names: seq<string>) returns (os: string)
    ensures os == JoinLines(NonEmpty(names))
  {
    hide NonEmpty, JoinLines;
    os := "";
    var isFirst := true;
    NothingJoined();
    for i := 0 to |names|
      invariant isFirst == (NonEmpty(names[..i]) == []) && os == JoinLines(NonEmpty(names[..i]))
    {
      TakeOne(names, i);
      JoinOne(NonEmpty(names[..i]), names[i]);
      if names[i] != "" {
        os := os + (if isFirst then "" else "\n") + names[i];
        isFirst := false;
      }
    }
    assert names[..|names|] == names;
  }

  method CountNames(names: seq<string>) returns (cnt: u64)
    ensures cnt == Wrap64(|NonEmpty(names)|)
  {
    hide NonEmpty;
    cnt := 0;
    NothingJoined();
    for i := 0 to |names|
      invariant cnt == Wrap64(|NonEmpty(names[..i])|)
    {
      TakeOne(names, i);
      if names[i] != "" {
        cnt := Wrap64(cnt + 1);
      }
    }
    assert names[..|names|] == names;
  }

  lemma NothingJoined()
    ensures NonEmpty([]) == [] && JoinLines([]) == ""
    ensures forall names: seq<string> :: NonEmpty(names[..0]) == []
  {
    assert forall names: seq<string> :: names[..0] == [];
  }

  lemma TakeOne(names: seq<string>, i: nat)
    requires i < |names|
    ensures NonEmpty(names[..i + 1]) == NonEmpty(names[..i]) + if names[i] == "" then [] else [names[i]]
  {
    assert names[..i + 1] == names[..i] + [names[i]];
    NonEmptySnoc(names[..i], names[i]);
  }

  lemma JoinOne(names: seq<string>, name: string)
    ensures JoinLines(names + [name]) == if names == [] then name else JoinLines(names) + "\n" + name
    ensures names + [] == names
  {
    assert (names + [name])[..|names|] == names;
  }

  predicate HasGroupItem(names: seq<string>) {
    exists x :: x in names && IsGroupName(x)
  }

  // The layer and hash a definition is filed under once its hash is initialised.
  function DefHashType(def: CraftDefinition): HashType {
    match def
    case Shaped(_, _, _, names) => if HasGroupItem(names) then COUNT else ITEM_NAMES
    case Shapeless(_, _, names) => if HasGroupItem(names) then COUNT else ITEM_NAMES
    case ToolRepair(_, _) => COUNT
    case Cooking(_, _, name) => if IsGroupName(name) then COUNT else ITEM_NAMES
    case Fuel(_, name) => if IsGroupName(name) then COUNT else ITEM_NAMES
  }

  function DefHash(hash: string -> u64, def: CraftDefinition): u64 {
    match def
    case Shaped(_, _, _, names) => GridHash(hash, DefHashType(def), Sort(names))
    case Shapeless(_, _, names) => GridHash(hash, DefHashType(def), Sort(names))
    case ToolRepair(_, _) => 2
    case Cooking(_, _, name) => if IsGroupName(name) then 1 else hash(name)
    case Fuel(_, name) => if IsGroupName(name) then 1 else hash(name)
  }

  // The slots a definition is filed by.
  function SlotNames(def: CraftDefinition): seq<string> {
    match def
    case Shaped(_, _, _, names) => names
    case Shapeless(_, _, names) => names
    case ToolRepair(_, _) => []
    case Cooking(_, _, name) => [name]
    case Fuel(_, name) => [name]
  }

  // Definitions without a group slot are filed by the text of their sorted names, one a line; others
  // by the number of their slots that are not blank, and a repair under 2.
  lemma FiledAs(hash: string -> u64, def: CraftDefinition)
    ensures var grouped := exists x :: x in SlotNames(def) && |x| >= 6 && x[..6] == "group:";
      DefHashType(def) == if def.ToolRepair? || grouped then COUNT else ITEM_NAMES
    ensures DefHashType(def) == ITEM_NAMES ==>
      DefHash(hash, def) == hash(JoinLines(NonEmpty(Sort(SlotNames(def)))))
    ensures DefHashType(def) == COUNT ==>
      DefHash(hash, def) == if def.ToolRepair? then 2 else |NonEmpty(SlotNames(def))| % 0x1_0000_0000_0000_0000
  {
    hide NonEmpty, Sort, JoinLines;
    NonEmptyOfSort(SlotNames(def));
    if def.Cooking? || def.Fuel? {
      OneSlot(SlotNames(def)[0]);
    }
  }

  lemma OneSlot(name: string)
    ensures Sort([name]) == [name] && NonEmpty([name]) == (if name == "" then [] else [name])
    ensures JoinLines(NonEmpty([name])) == name
  {
  }

  // The text tells the names, as long as there is no line break in them.
  lemma {:induction false} TextTellsNames(a: seq<string>, b: seq<string>)
    requires forall x :: x in a || x in b ==> x != "" && '\n' !in x
    requires JoinLines(a) == JoinLines(b)
    ensures a == b
    decreases |a|
  {
    hide JoinLines;
    JoinLast(a);
    JoinLast(b);
    assert (a != [] ==> a[0] in a) && (b != [] ==> b[0] in b);
    if |a| > 1 && |b| > 1 {
      var m, n := |a| - 1, |b| - 1;
      assert a == a[..m] + [a[m]] && b == b[..n] + [b[n]];
      assert forall x :: x in a[..m] || x in b[..n] ==> x in a || x in b;
      SameLastLine(JoinLines(a[..m]), a[m], JoinLines(b[..n]), b[n]);
      TextTellsNames(a[..m], b[..n]);
    }
  }

  lemma JoinLast(names: seq<string>)
    ensures JoinLines(names) ==
      if names == [] then "" else if |names| == 1 then names[0]
      else JoinLines(names[..|names| - 1]) + "\n" + names[|names| - 1]
    ensures |names| > 1 ==> '\n' in JoinLines(names)
  {
    if |names| > 1 {
      assert JoinLines(names)[|JoinLines(names[..|names| - 1])|] == '\n';
    }
  }

  lemma SameLastLine(s: string, x: string, t: string, y: string)
    requires s + "\n" + x == t + "\n" + y && '\n' !in x && '\n' !in y
    ensures s == t && x == y
  {
    if |s| < |t| {
      BreakInside(s, x, t, y);
    } else if |t| < |s| {
      BreakInside(t, y, s, x);
    } else {
      var u := s + "\n" + x;
      assert s == u[..|s|] && t == u[..|t|];
      assert x == u[|s| + 1..] && y == u[|t| + 1..];
    }
  }

  lemma BreakInside(s: string, x: string, t: string, y: string)
    requires s + "\n" + x == t + "\n" + y && |s| < |t|
    ensures '\n' in x
  {
    var u := s + "\n" + x;
    assert u[|t|] == '\n' && u[|t|] == x[|t| - |s| - 1];
  }

  function InputHash(hash: string -> u64, kind: HashType, input: CraftInput): u64 {
    GridHash(hash, kind, Sort(ItemNames(input.items)))
  }

  // ---- a successful check forces equal hashes

  lemma {:induction false} NonEmptySorted(a: seq<string>)
    requires Sorted(a)
    ensures Sorted(NonEmpty(a))
  {
    if a != [] {
      NonEmptySorted(a[1..]);
      NonEmptyMembers(a[1..]);
      forall x | x in NonEmpty(a[1..]) ensures !Less(x, a[0]) {}
    }
  }

  // The hash of a grid depends only on which non-empty names occur how often.
  lemma GridHashOfMultiset(hash: string -> u64, a: seq<string>, b: seq<string>)
    ensures |NonEmpty(a)| == |NonEmpty(b)| ==> GridHash(hash, COUNT, Sort(a)) == GridHash(hash, COUNT, Sort(b))
    ensures multiset(NonEmpty(a)) == multiset(NonEmpty(b)) ==>
      GridHash(hash, ITEM_NAMES, Sort(a)) == GridHash(hash, ITEM_NAMES, Sort(b))
  {
    NonEmptyOfSort(a);
    NonEmptyOfSort(b);
    if multiset(NonEmpty(a)) == multiset(NonEmpty(b)) {
      SortedUnique(NonEmpty(Sort(a)), NonEmpty(Sort(b)));
    }
  }

  lemma NonEmptyOfSort(a: seq<string>)
    ensures Sorted(NonEmpty(Sort(a)))
    ensures multiset(NonEmpty(Sort(a))) == multiset(NonEmpty(a))
    ensures |NonEmpty(Sort(a))| == |NonEmpty(a)|
  {
    SortSorted(a);
    NonEmptySorted(Sort(a));
    NonEmptyMultiset(a);
    NonEmptyMultiset(Sort(a));
    assert |multiset(NonEmpty(Sort(a)))| == |NonEmpty(Sort(a))| && |multiset(NonEmpty(a))| == |NonEmpty(a)|;
  }

  lemma GroupNamesAreNotEmpty(names: seq<string>)
    ensures HasGroupItem(names) <==> !NoGroups(names)
  {
  }

  lemma ShapedForcesHash(idef: ItemDefs, hash: string -> u64, def: CraftDefinition, input: CraftInput)
    requires idef.Valid() && HandFree(idef) && def.Shaped? && Accepts(idef, def, input)
    ensures InputHash(hash, DefHashType(def), input) == DefHash(hash, def)
  {
    hide IsBounds, BoxMatch, HandFree, ShiftMatch, Aligned;
    var inp, rec := ItemNames(input.items), def.recipeNames;
    var bi, br :| IsBounds(inp, input.width, bi) && IsBounds(rec, def.width, br)
      && BoxMatch(idef, inp, input.width, bi, rec, def.width, br);
    BoxGivesShift(idef, inp, input.width, bi, rec, def.width, br);
    HandFreeAligns(idef, inp, input.width, rec, def.width, bi.minX - br.minX, bi.minY - br.minY);
    AlignedForcesHash(idef, hash, def, input, bi.minX - br.minX, bi.minY - br.minY);
  }

  lemma AlignedForcesHash(idef: ItemDefs, hash: string -> u64, def: CraftDefinition, input: CraftInput, dx: int,
                          dy: int)
    requires idef.Valid() && def.Shaped? && input.width > 0 && def.width > 0
    requires ShiftMatch(idef, ItemNames(input.items), input.width, def.recipeNames, def.width, dx, dy)
    requires Aligned(ItemNames(input.items), input.width, def.recipeNames, def.width, dx, dy)
    ensures InputHash(hash, DefHashType(def), input) == DefHash(hash, def)
  {
    var inp, rec := ItemNames(input.items), def.recipeNames;
    ShiftPairsItems(idef, inp, input.width, rec, def.width, dx, dy);
    GridHashOfMultiset(hash, inp, rec);
    GroupNamesAreNotEmpty(rec);
  }

  // With no group slot, an assignment pairs equal names.
  lemma ExactAssignment(idef: ItemDefs, inp: seq<string>, rec: seq<string>)
    requires idef.Valid() && Assignable(idef, inp, rec) && NoGroups(rec)
    ensures multiset(inp) == multiset(rec)
  {
    assert rec + [] == rec;
    ExactNamesPresent(idef, inp, rec, []);
    assert |multiset(inp)| == |inp| && |multiset(rec)| == |rec|;
    assert multiset(inp) == multiset(rec) + (multiset(inp) - multiset(rec));
  }

  lemma ShapelessForcesHash(idef: ItemDefs, hash: string -> u64, def: CraftDefinition, input: CraftInput)
    requires idef.Valid() && def.Shapeless? && Accepts(idef, def, input)
    ensures InputHash(hash, DefHashType(def), input) == DefHash(hash, def)
  {
    var inp, rec := ItemNames(input.items), def.recipeNames;
    NonEmptyMembers(inp);
    AssignedSlotsNotBlank(idef, NonEmpty(inp), rec);
    GridHashOfMultiset(hash, inp, rec);
    GroupNamesAreNotEmpty(rec);
    NonEmptyOfFull(rec);
    if NoGroups(rec) {
      ExactAssignment(idef, NonEmpty(inp), rec);
    }
  }

  lemma NonEmptyOfFull(a: seq<string>)
    requires "" !in a
    ensures NonEmpty(a) == a
  {
  }

  // A blank slot takes no non-empty item.
  lemma AssignedSlotsNotBlank(idef: ItemDefs, inp: seq<string>, rec: seq<string>)
    requires idef.Valid() && Assignable(idef, inp, rec) && "" !in inp
    ensures "" !in rec
  {
    var m :| IsAssignment(idef, inp, rec, m);
    forall k: nat | k < |rec| ensures rec[k] != "" {
      Surjective(m, k);
      var i :| 0 <= i < |m| && m[i] == k;
      assert Matches(idef, inp[i], rec[k]);
    }
  }

  lemma {:induction false} OccupiedNames(items: seq<ItemStack>)
    requires forall item :: item in items ==> item.Valid()
    ensures |NonEmpty(ItemNames(items))| == |Occupied(items)|
  {
    if items != [] {
      var n := |items| - 1;
      assert items[n] in items;
      assert forall item :: item in items[..n] ==> item in items;
      OccupiedNames(items[..n]);
      assert ItemNames(items) == ItemNames(items[..n]) + [items[n].name];
      NonEmptySnoc(ItemNames(items[..n]), items[n].name);
    }
  }

  lemma OneItemForcesHash(idef: ItemDefs, hash: string -> u64, name: string, input: CraftInput)
    requires idef.Valid() && |NonEmpty(ItemNames(input.items))| == 1
    requires Matches(idef, NonEmpty(ItemNames(input.items))[0], name)
    ensures InputHash(hash, COUNT, input) == 1
    ensures !IsGroupName(name) ==> InputHash(hash, ITEM_NAMES, input) == hash(name)
  {
    hide Sort, NonEmpty;
    var names := ItemNames(input.items);
    NonEmptyOfSort(names);
    var one := NonEmpty(Sort(names));
    assert one[0] in multiset(one) && NonEmpty(names) == [NonEmpty(names)[0]];
    assert one[0] == NonEmpty(names)[0];
  }

  lemma RepairForcesHash(hash: string -> u64, input: CraftInput)
    requires input.Valid() && |Occupied(input.items)| == 2
    ensures InputHash(hash, COUNT, input) == 2
  {
    hide Sort, NonEmpty, Occupied;
    OccupiedNames(input.items);
    NonEmptyOfSort(ItemNames(input.items));
  }

  // Whatever a definition accepts hashes, in the definition's own layer, to its own hash.
  lemma CheckForcesHash(idef: ItemDefs, hash: string -> u64, def: CraftDefinition, input: CraftInput)
    requires idef.Valid() && HandFree(idef) && input.Valid()
    requires Accepts(idef, def, input)
    ensures InputHash(hash, DefHashType(def), input) == DefHash(hash, def)
  {
    hide Sort, NonEmpty, Occupied, GridHash, InputHash, Assignable, ShapedCheck, Matches, HandFree;
    match def
    case Shaped(_, _, _, _) => ShapedForcesHash(idef, hash, def, input);
    case Shapeless(_, _, _) => ShapelessForcesHash(idef, hash, def, input);
    case ToolRepair(_, _) => RepairForcesHash(hash, input);
    case Cooking(_, _, name) => OneItemForcesHash(idef, hash, name, input);
    case Fuel(_, name) => OneItemForcesHash(idef, hash, name, input);
  }

  // ---- and only while no group accepts the hand

  // A shaped recipe with a group slot where the input has nothing but the hand.
  function HandRecipe(slot: string): CraftDefinition {
    Shaped("", 5, 2, ["a", slot, "", "a"])
  }

  const HAND_INPUT :=
    CraftInput(NORMAL, 2, [ItemStack("a", 1, 0, map[]), NO_ITEM, NO_ITEM, ItemStack("a", 1, 0, map[])])

  lemma HandRecipeAccepted(idef: ItemDefs, slot: string)
    requires idef.Valid() && Matches(idef, "", slot) && slot != ""
    ensures Accepts(idef, HandRecipe(slot), HAND_INPUT)
  {
    hide Matches;
    var inp, rec := ItemNames(HAND_INPUT.items), ["a", slot, "", "a"];
    assert inp == ["a", "", "", "a"];
    var b := Bounds(0, 1, 0, 1);
    TwoByTwo(inp);
    TwoByTwo(rec);
    BlankMatches(idef);
    SameNameMatches(idef, "a");
    assert BoxMatch(idef, inp, 2, b, rec, 2, b) by {
      forall x, y | b.Contains(x, y) ensures Matches(idef, Cell(inp, 2, x, y), Cell(rec, 2, x - 0, y - 0)) {
        assert (x == 0 || x == 1) && (y == 0 || y == 1);
      }
    }
  }

  lemma SameNameMatches(idef: ItemDefs, name: string)
    requires idef.Valid()
    ensures Matches(idef, name, name)
  {
  }

  lemma TwoByTwo(names: seq<string>)
    requires |names| == 4 && names[0] == "a" && names[3] == "a"
    ensures IsBounds(names, 2, Bounds(0, 1, 0, 1))
  {
    assert Cell(names, 2, 0, 0) == "a" && Cell(names, 2, 1, 1) == "a";
  }

  // The index loses that recipe: three slots filed, two items counted.
  lemma HandRecipeHash(hash: string -> u64, slot: string)
    requires IsGroupName(slot)
    ensures DefHashType(HandRecipe(slot)) == COUNT
    ensures InputHash(hash, COUNT, HAND_INPUT) == 2 && DefHash(hash, HandRecipe(slot)) == 3
  {
    hide Sort, NonEmpty;
    HandRecipeType(slot);
    HandInputHash(hash);
    NonEmptyOfSort(["a", slot, "", "a"]);
    HandNames(slot);
    assert slot != "";
  }

  lemma HandRecipeType(slot: string)
    requires IsGroupName(slot)
    ensures DefHashType(HandRecipe(slot)) == COUNT
  {
    var rec := ["a", slot, "", "a"];
    assert rec[1] in rec;
  }

  lemma HandInputHash(hash: string -> u64)
    ensures InputHash(hash, COUNT, HAND_INPUT) == 2
  {
    hide Sort, NonEmpty, ItemNames;
    HandItemNames();
    NonEmptyOfSort(ItemNames(HAND_INPUT.items));
    HandNames("");
    assert |["a", "a"]| == 2;
  }

  lemma HandItemNames()
    ensures ItemNames(HAND_INPUT.items) == ["a", "", "", "a"]
  {
  }

  lemma HandNames(slot: string)
    ensures NonEmpty(["a", slot, "", "a"]) == if slot == "" then ["a", "a"] else ["a", slot, "a"]
  {
    hide NonEmpty;
    NonEmptyOfBlanks([]);
    NonEmptySnoc([], "a");
    NonEmptySnoc(["a"], slot);
    NonEmptySnoc(["a", slot], "");
    NonEmptySnoc(["a", slot, ""], "a");
    assert [] + ["a"] == ["a"] && ["a"] + [slot] == ["a", slot];
    assert ["a", slot] + [""] == ["a", slot, ""];
    assert ["a", slot, ""] + ["a"] == ["a", slot, "", "a"];
  }
}

// The manager: registration, initialisation of the hashes, and lookup.
module CraftManager {
  import opened Arithmetic
  import opened Options
  import opened Numbers
  import opened Items
  import opened CraftGrids
  import opened ShapedRecipes
  import opened CraftDefinitions
  import opened CraftHashes

  function OutputName(idef: ItemDefs, def: CraftDefinition, input: CraftInput): string
    requires idef.Valid()
  {
    match def
    case Shaped(output, _, _, _) => output
    case Shapeless(output, _, _) => output
    case Cooking(output, _, _) => output
    case Fuel(_, _) => ""
    case ToolRepair(_, extra) =>
      if |Occupied(input.items)| < 2 then ""
      else idef.GetAlias(CraftToolRepair(idef, Occupied(input.items)[0], Occupied(input.items)[1], extra).name)
  }

  // The definition applies to the input and what it makes is a known item.
  ghost predicate Crafts(idef: ItemDefs, def: CraftDefinition, input: CraftInput)
    requires idef.Valid()
  {
    Accepts(idef, def, input) && idef.IsKnown(OutputName(idef, def, input))
  }

  // What has to be known: the output of a recipe, nothing for fuel, and for a repair the name of the
  // two tools.
  lemma CraftsMeans(idef: ItemDefs, def: CraftDefinition, input: CraftInput)
    requires idef.Valid()
    ensures def.Shaped? || def.Shapeless? || def.Cooking? ==>
      (Crafts(idef, def, input) <==> Accepts(idef, def, input) && idef.IsKnown(def.output))
    ensures def.Fuel? ==> (Crafts(idef, def, input) <==> Accepts(idef, def, input) && idef.IsKnown(""))
    ensures def.ToolRepair? && Accepts(idef, def, input) ==>
      forall item :: item in input.items && item.count > 0 ==>
        (Crafts(idef, def, input) <==> idef.IsKnown(idef.GetAlias(item.name)))
  {
    hide Occupied;
    if def.ToolRepair? && Accepts(idef, def, input) {
      OccupiedHas(input.items);
    }
  }

  lemma {:induction false} OccupiedHas(items: seq<ItemStack>)
    ensures forall item :: item in items && item.count > 0 ==> item in Occupied(items)
  {
    if items != [] {
      var n := |items| - 1;
      OccupiedHas(items[..n]);
      assert items == items[..n] + [items[n]];
    }
  }

  // The first of the highest-priority definitions in a list that craft the input.
  ghost function Best(idef: ItemDefs, order: seq<CraftDefinition>, input: CraftInput): Option<CraftDefinition>
    requires idef.Valid()
  {
    if order == [] then None
    else
      var n := |order| - 1;
      var best := Best(idef, order[..n], input);
      if Crafts(idef, order[n], input) && (best.None? || order[n].priority > best.value.priority) then Some(order[n])
        else best
  }

  lemma {:induction false} BestIsBest(idef: ItemDefs, order: seq<CraftDefinition>, input: CraftInput)
    requires idef.Valid()
    ensures Best(idef, order, input).Some? <==> exists def :: def in order && Crafts(idef, def, input)
    ensures var best := Best(idef, order, input);
      best.Some? ==>
        && best.value in order && Crafts(idef, best.value, input)
        && forall def :: def in order && Crafts(idef, def, input) ==> def.priority <= best.value.priority
  {
    hide Crafts;
    if order != [] {
      var n := |order| - 1;
      assert order == order[..n] + [order[n]];
      BestIsBest(idef, order[..n], input);
    }
  }

  // Where the first best one stands: every earlier candidate has a lower priority.
  lemma {:induction false} BestIsFirst(idef: ItemDefs, order: seq<CraftDefinition>, input: CraftInput) returns (k: nat)
    requires idef.Valid() && Best(idef, order, input).Some?
    ensures k < |order| && Best(idef, order, input) == Some(order[k])
    ensures forall j :: 0 <= j < k && Crafts(idef, order[j], input) ==> order[j].priority < order[k].priority
  {
    hide Crafts;
    var n := |order| - 1;
    if Best(idef, order[..n], input) == Best(idef, order, input) {
      k := BestIsFirst(idef, order[..n], input);
    } else {
      k := n;
      BestIsBest(idef, order[..n], input);
      forall j | 0 <= j < k && Crafts(idef, order[j], input) ensures order[j].priority < order[k].priority {
        assert order[j] in order[..n];
      }
    }
  }

  function Reverse<T(!new)>(s: seq<T>): (r: seq<T>)
    ensures |r| == |s|
    ensures forall x :: x in r <==> x in s
  {
    if s == [] then [] else [s[|s| - 1]] + Reverse(s[..|s| - 1])
  }

  // The definitions filed in one layer under one hash, in order of registration.
  function Filed(hash: string -> u64, defs: seq<CraftDefinition>, layer: nat, h: int): (r: seq<CraftDefinition>)
    ensures forall def :: def in r <==> def in defs && DefHashType(def).Layer() == layer && DefHash(hash, def) == h
  {
    if defs == [] then []
    else
      var n := |defs| - 1;
      assert defs == defs[..n] + [defs[n]];
      Filed(hash, defs[..n], layer, h) +
        if DefHashType(defs[n]).Layer() == layer && DefHash(hash, defs[n]) == h then [defs[n]] else []
  }

  // The definitions a lookup visits: each layer's bucket for the input, latest first.
  ghost function LookupOrder(hash: string -> u64, hashed: seq<CraftDefinition>, unhashed: seq<CraftDefinition>,
                             input: CraftInput): seq<CraftDefinition>
  {
    Reverse(Filed(hash, hashed, 0, InputHash(hash, ITEM_NAMES, input)))
    + Reverse(Filed(hash, hashed, 1, InputHash(hash, COUNT, input)))
    + Reverse(unhashed)
  }

  lemma FiledNext(hash: string -> u64, defs: seq<CraftDefinition>, def: CraftDefinition)
    ensures forall layer: nat, h: int ::
      Filed(hash, defs + [def], layer, h) == Filed(hash, defs, layer, h) +
        (if DefHashType(def).Layer() == layer && DefHash(hash, def) == h then [def] else [])
  {
    assert (defs + [def])[..|defs|] == defs;
  }

  lemma FrontOfRest<T>(s: seq<T>, k: nat)
    requires k < |s|
    ensures s[k..][..|s[k..]| - 1] == s[..|s| - 1][k..]
  {
  }

  lemma {:induction false} ReverseNext<T(!new)>(s: seq<T>, k: nat)
    requires k < |s|
    ensures Reverse(s[k..]) == Reverse(s[k + 1..]) + [s[k]]
    decreases |s|
  {
    if k < |s| - 1 {
      var front := s[..|s| - 1];
      ReverseNext(front, k);
      FrontOfRest(s, k);
      FrontOfRest(s, k + 1);
    }
  }

  // What a lookup has visited before the given layer.
  ghost function VisitedBefore(hash: string -> u64, hashed: seq<CraftDefinition>, unhashed: seq<CraftDefinition>,
                               input: CraftInput, layer: nat): seq<CraftDefinition>
  {
    (if layer > 0 then Reverse(Filed(hash, hashed, 0, InputHash(hash, ITEM_NAMES, input))) else [])
    + (if layer > 1 then Reverse(Filed(hash, hashed, 1, InputHash(hash, COUNT, input))) else [])
    + (if layer > 2 then Reverse(unhashed) else [])
  }

  lemma VisitLayer(hash: string -> u64, hashed: seq<CraftDefinition>, unhashed: seq<CraftDefinition>,
                   input: CraftInput, layer: nat)
    requires layer < 3
    ensures VisitedBefore(hash, hashed, unhashed, input, layer + 1) ==
      VisitedBefore(hash, hashed, unhashed, input, layer)
      + (if layer == 0 then Reverse(Filed(hash, hashed, 0, InputHash(hash, ITEM_NAMES, input)))
         else if layer == 1 then Reverse(Filed(hash, hashed, 1, InputHash(hash, COUNT, input)))
         else Reverse(unhashed))
    ensures VisitedBefore(hash, hashed, unhashed, input, 0) == []
    ensures VisitedBefore(hash, hashed, unhashed, input, 3) == LookupOrder(hash, hashed, unhashed, input)
  {
    hide Reverse, Filed, InputHash;
  }

  // What the best of the lookup order means for the registered definitions.
  lemma LookupMeansScan(idef: ItemDefs, hash: string -> u64, hashed: seq<CraftDefinition>,
                        unhashed: seq<CraftDefinition>, input: CraftInput)
    requires idef.Valid()
    ensures var best := Best(idef, LookupOrder(hash, hashed, unhashed, input), input);
      best.Some? ==> best.value in hashed + unhashed && Crafts(idef, best.value, input)
    ensures HandFree(idef) && input.Valid() ==>
      var best := Best(idef, LookupOrder(hash, hashed, unhashed, input), input);
      && (best.Some? <==> exists def :: def in hashed + unhashed && Crafts(idef, def, input))
      && (best.Some? ==> forall def :: def in hashed + unhashed && Crafts(idef, def, input) ==>
          def.priority <= best.value.priority)
  {
    hide Accepts, HandFree, InputHash, Best;
    var order := LookupOrder(hash, hashed, unhashed, input);
    BestIsBest(idef, order, input);
    if HandFree(idef) && input.Valid() {
      forall def | def in hashed + unhashed && Crafts(idef, def, input) ensures def in order {
        LookupComplete(idef, hash, hashed, unhashed, input, def);
      }
    }
  }

  // The lookup visits every definition that crafts the input.
  lemma LookupComplete(idef: ItemDefs, hash: string -> u64, hashed: seq<CraftDefinition>,
                       unhashed: seq<CraftDefinition>,
                       input: CraftInput, def: CraftDefinition)
    requires idef.Valid() && HandFree(idef) && input.Valid()
    requires def in hashed + unhashed && Accepts(idef, def, input)
    ensures def in LookupOrder(hash, hashed, unhashed, input)
  {
    hide Accepts, HandFree, DefHash, InputHash, GridHash;
    CheckForcesHash(idef, hash, def, input);
  }

  // The index never loses a recipe exactly when no group accepts the hand.
  lemma IndexCompleteIffHandFree(idef: ItemDefs, hash: string -> u64)
    requires idef.Valid()
    ensures HandFree(idef) <==>
      forall defs, input: CraftInput, def :: input.Valid() && def in defs && Crafts(idef, def, input) ==>
        def in LookupOrder(hash, defs, [], input)
  {
    hide Accepts, DefHash, InputHash, GridHash, Matches, LookupOrder;
    if HandFree(idef) {
      forall defs, input: CraftInput, def | input.Valid() && def in defs && Crafts(idef, def, input)
        ensures def in LookupOrder(hash, defs, [], input)
      {
        assert defs + [] == defs;
        LookupComplete(idef, hash, defs, [], input, def);
      }
    } else {
      var slot :| IsGroupName(slot) && Matches(idef, "", slot);
      HandRecipeLost(idef, hash, slot);
    }
  }

  // Items for all the slots of a recipe that give some slot the hand and keep the bounding box.
  ghost predicate HandFills(idef: ItemDefs, rec: seq<string>, width: nat, fill: seq<string>)
    requires idef.Valid()
  {
    && |fill| == |rec| && (forall i :: 0 <= i < |rec| ==> Matches(idef, fill[i], rec[i]))
    && (exists i :: 0 <= i < |rec| && rec[i] != "" && fill[i] == "")
    && exists b :: IsBounds(rec, width, b) && IsBounds(fill, width, b)
  }

  // A definition by itself loses an input that it accepts.
  ghost predicate Loses(idef: ItemDefs, hash: string -> u64, def: CraftDefinition, input: CraftInput)
    requires idef.Valid()
  {
    input.Valid() && Accepts(idef, def, input) && InputHash(hash, DefHashType(def), input) != DefHash(hash, def)
  }

  // So it is looked up for any other input, whatever else is registered.
  lemma LosesMeans(idef: ItemDefs, hash: string -> u64, hashed: seq<CraftDefinition>, unhashed: seq<CraftDefinition>,
                   def: CraftDefinition, input: CraftInput)
    requires idef.Valid() && input.Valid() && Accepts(idef, def, input) && def in hashed && def !in unhashed
    ensures Loses(idef, hash, def, input) <==> def !in LookupOrder(hash, hashed, unhashed, input)
  {
    hide Accepts, DefHash, InputHash, GridHash;
    assert DefHashType(def) in {ITEM_NAMES, COUNT};
  }

  // It loses some input exactly if it is a shaped recipe with such a filling. The recipe's size is
  // one that its vector can have.
  lemma LostExactly(idef: ItemDefs, hash: string -> u64, def: CraftDefinition)
    requires idef.Valid() && (def.Shaped? ==> |def.recipeNames| < 0x1_0000_0000_0000_0000)
    ensures (exists input :: Loses(idef, hash, def, input))
      <==> def.Shaped? && exists fill :: HandFills(idef, def.recipeNames, def.width, fill)
  {
    hide Accepts, Loses, HandFills;
    forall input | Loses(idef, hash, def, input)
      ensures def.Shaped? && exists fill :: HandFills(idef, def.recipeNames, def.width, fill)
    {
      var fill := LostHasFilling(idef, hash, def, input);
    }
    if def.Shaped? {
      forall fill | HandFills(idef, def.recipeNames, def.width, fill)
        ensures Loses(idef, hash, def, InputOf(fill, def.width))
      {
        FillingIsLost(idef, hash, def, fill);
      }
    }
  }

  // If no slot of it accepts the hand, none is lost.
  lemma NeverLost(idef: ItemDefs, hash: string -> u64, def: CraftDefinition, input: CraftInput)
    requires idef.Valid()
    requires def.Shaped? ==> forall slot :: slot in def.recipeNames && slot != "" ==> !Matches(idef, "", slot)
    ensures !Loses(idef, hash, def, input)
  {
    hide Accepts, InputHash, DefHash, DefHashType;
    if Loses(idef, hash, def, input) {
      var fill := LostHasFilling(idef, hash, def, input);
    }
  }

  lemma LostHasFilling(idef: ItemDefs, hash: string -> u64, def: CraftDefinition, input: CraftInput)
    returns (fill: seq<string>)
    requires idef.Valid() && Loses(idef, hash, def, input)
    ensures def.Shaped? && HandFills(idef, def.recipeNames, def.width, fill)
  {
    hide IsBounds, BoxMatch, ShiftMatch, Aligned, InputHash, GridHash, HandFills, Matches, NonEmpty, Occupied, Sort;
    fill := [];
    match def
    case Shaped(_, _, w, rec) =>
      var inp := ItemNames(input.items);
      var bi, br :| IsBounds(inp, input.width, bi) && IsBounds(rec, w, br)
        && BoxMatch(idef, inp, input.width, bi, rec, w, br);
      var dx, dy := bi.minX - br.minX, bi.minY - br.minY;
      BoxGivesShift(idef, inp, input.width, bi, rec, w, br);
      if Aligned(inp, input.width, rec, w, dx, dy) {
        AlignedForcesHash(idef, hash, def, input, dx, dy);
      }
      fill := Shifted(inp, input.width, w, |rec|, dx, dy);
      ShiftedFills(idef, inp, input.width, bi, rec, w, br);
    case Shapeless(_, _, _) => ShapelessForcesHash(idef, hash, def, input);
    case ToolRepair(_, _) => RepairForcesHash(hash, input);
    case Cooking(_, _, name) => OneItemForcesHash(idef, hash, name, input);
    case Fuel(_, name) => OneItemForcesHash(idef, hash, name, input);
  }

  // The input's items, put where the recipe has its slots.
  ghost function Shifted(inp: seq<string>, iw: nat, rw: nat, n: nat, dx: int, dy: int): (fill: seq<string>)
    requires rw > 0
    ensures |fill| == n && forall i :: 0 <= i < n ==> fill[i] == Cell(inp, iw, i % rw + dx, i / rw + dy)
  {
    seq(n, i => Cell(inp, iw, i % rw + dx, i / rw + dy))
  }

  lemma ShiftedCell(idef: ItemDefs, inp: seq<string>, iw: nat, rec: seq<string>, rw: nat, dx: int, dy: int, x: int,
                    y: int)
    requires idef.Valid() && rw > 0 && ShiftMatch(idef, inp, iw, rec, rw, dx, dy)
    ensures Cell(Shifted(inp, iw, rw, |rec|, dx, dy), rw, x, y) == Cell(inp, iw, x + dx, y + dy)
    ensures Matches(idef, Cell(inp, iw, x + dx, y + dy), Cell(rec, rw, x, y))
  {
    hide Matches;
    assert Matches(idef, Cell(inp, iw, x + dx, y + dy), Cell(rec, rw, x + dx - dx, y + dy - dy));
    BlankMatches(idef);
    if 0 <= x < rw && 0 <= y && y * rw + x < |rec| {
      PlaceOf(rw, x, y);
    }
  }

  lemma PlaceOf(width: nat, x: nat, y: nat)
    requires x < width
    ensures (y * width + x) % width == x && (y * width + x) / width == y
  {
    var i := y * width + x;
    assert i == i / width * width + i % width;
    SamePlace(width, x, y, i % width, i / width);
  }

  lemma ShiftedFills(idef: ItemDefs, inp: seq<string>, iw: nat, bi: Bounds, rec: seq<string>, rw: nat, br: Bounds)
    requires idef.Valid() && rw > 0 && IsBounds(inp, iw, bi) && IsBounds(rec, rw, br)
    requires BoxMatch(idef, inp, iw, bi, rec, rw, br)
    requires ShiftMatch(idef, inp, iw, rec, rw, bi.minX - br.minX, bi.minY - br.minY)
    requires !Aligned(inp, iw, rec, rw, bi.minX - br.minX, bi.minY - br.minY)
    ensures HandFills(idef, rec, rw, Shifted(inp, iw, rw, |rec|, bi.minX - br.minX, bi.minY - br.minY))
  {
    hide Matches, Cell, Shifted, ShiftMatch, Aligned, IsBounds;
    var dx, dy := bi.minX - br.minX, bi.minY - br.minY;
    var fill := Shifted(inp, iw, rw, |rec|, dx, dy);
    forall i | 0 <= i < |rec|
      ensures Matches(idef, fill[i], rec[i])
    {
      SlotFilled(idef, inp, iw, rec, rw, dx, dy, i);
    }
    var j := HandSlot(inp, iw, rec, rw, dx, dy);
    SameBox(idef, inp, iw, bi, rec, rw, br);
  }

  lemma SlotFilled(idef: ItemDefs, inp: seq<string>, iw: nat, rec: seq<string>, rw: nat, dx: int, dy: int, i: nat)
    requires idef.Valid() && rw > 0 && ShiftMatch(idef, inp, iw, rec, rw, dx, dy) && i < |rec|
    ensures Matches(idef, Shifted(inp, iw, rw, |rec|, dx, dy)[i], rec[i])
  {
    hide Matches, Cell, ShiftMatch;
    IndexIsCell(rec, rw, i);
    ShiftedCell(idef, inp, iw, rec, rw, dx, dy, i % rw, i / rw);
  }

  lemma HandSlot(inp: seq<string>, iw: nat, rec: seq<string>, rw: nat, dx: int, dy: int) returns (j: nat)
    requires rw > 0 && !Aligned(inp, iw, rec, rw, dx, dy)
    ensures j < |rec| && rec[j] != "" && Shifted(inp, iw, rw, |rec|, dx, dy)[j] == ""
  {
    hide Cell;
    var x, y :| Cell(inp, iw, x, y) == "" && Cell(rec, rw, x - dx, y - dy) != "";
    j := CellIndex(rec, rw, x - dx, y - dy);
    PlaceOf(rw, x - dx, y - dy);
    assert Cell(inp, iw, j % rw + dx, j / rw + dy) == "";
  }

  lemma SameBox(idef: ItemDefs, inp: seq<string>, iw: nat, bi: Bounds, rec: seq<string>, rw: nat, br: Bounds)
    requires idef.Valid() && rw > 0 && IsBounds(inp, iw, bi) && BoxMatch(idef, inp, iw, bi, rec, rw, br)
    requires ShiftMatch(idef, inp, iw, rec, rw, bi.minX - br.minX, bi.minY - br.minY)
    ensures IsBounds(Shifted(inp, iw, rw, |rec|, bi.minX - br.minX, bi.minY - br.minY), rw, br)
  {
    hide Cell, Shifted, Matches, ShiftMatch;
    var dx, dy := bi.minX - br.minX, bi.minY - br.minY;
    var fill := Shifted(inp, iw, rw, |rec|, dx, dy);
    var y0 :| Cell(inp, iw, bi.minX, y0) != "";
    var y1 :| Cell(inp, iw, bi.maxX, y1) != "";
    var x0 :| Cell(inp, iw, x0, bi.minY) != "";
    var x1 :| Cell(inp, iw, x1, bi.maxY) != "";
    ShiftedCell(idef, inp, iw, rec, rw, dx, dy, br.minX, y0 - dy);
    ShiftedCell(idef, inp, iw, rec, rw, dx, dy, br.maxX, y1 - dy);
    ShiftedCell(idef, inp, iw, rec, rw, dx, dy, x0 - dx, br.minY);
    ShiftedCell(idef, inp, iw, rec, rw, dx, dy, x1 - dx, br.maxY);
    forall x, y | Cell(fill, rw, x, y) != ""
      ensures br.Contains(x, y)
    {
      ShiftedCell(idef, inp, iw, rec, rw, dx, dy, x, y);
    }
  }

  // The filling as an input, one item of each.
  function InputOf(fill: seq<string>, width: nat): CraftInput {
    CraftInput(NORMAL, width, seq(|fill|, i requires 0 <= i < |fill| =>
      ItemStack(fill[i], if fill[i] == "" then 0 else 1, 0, map[])))
  }

  lemma FillingIsLost(idef: ItemDefs, hash: string -> u64, def: CraftDefinition, fill: seq<string>)
    requires idef.Valid() && def.Shaped? && |def.recipeNames| < 0x1_0000_0000_0000_0000
    requires HandFills(idef, def.recipeNames, def.width, fill)
    ensures Loses(idef, hash, def, InputOf(fill, def.width))
  {
    hide IsBounds, Sort, NonEmpty, ShapedCheck, Matches, InputHash, DefHash, DefHashType, HandFills;
    var input, rec := InputOf(fill, def.width), def.recipeNames;
    assert ItemNames(input.items) == fill;
    FillingChecks(idef, rec, def.width, fill);
    FillingHash(idef, hash, def, fill, input);
  }

  // It has fewer items than the recipe has slots, which is what is counted.
  lemma FillingHash(idef: ItemDefs, hash: string -> u64, def: CraftDefinition, fill: seq<string>, input: CraftInput)
    requires idef.Valid() && def.Shaped? && |def.recipeNames| < 0x1_0000_0000_0000_0000
    requires HandFills(idef, def.recipeNames, def.width, fill) && ItemNames(input.items) == fill
    ensures InputHash(hash, DefHashType(def), input) != DefHash(hash, def)
  {
    hide IsBounds, Sort, NonEmpty, Matches;
    var rec := def.recipeNames;
    FewerItems(idef, fill, rec);
    var i :| 0 <= i < |rec| && rec[i] != "" && fill[i] == "";
    HandNeedsGroup(idef, rec[i]);
    assert rec[i] in rec;
    NonEmptyOfSort(fill);
    NonEmptyOfSort(rec);
  }

  lemma HandNeedsGroup(idef: ItemDefs, slot: string)
    requires idef.Valid() && Matches(idef, "", slot) && slot != ""
    ensures IsGroupName(slot)
  {
  }

  lemma FillingChecks(idef: ItemDefs, rec: seq<string>, width: nat, fill: seq<string>)
    requires idef.Valid() && HandFills(idef, rec, width, fill)
    ensures ShapedCheck(idef, fill, width, rec, width)
  {
    hide Matches, Cell;
    var b :| IsBounds(rec, width, b) && IsBounds(fill, width, b);
    forall x, y
      ensures Matches(idef, Cell(fill, width, x, y), Cell(rec, width, x - 0, y - 0))
    {
      FilledCell(idef, rec, width, fill, x, y);
    }
    assert BoxMatch(idef, fill, width, b, rec, width, b);
    assert exists y :: Cell(rec, width, b.minX, y) != "";
    NoWidthNoCell(rec, width);
  }

  lemma NoWidthNoCell(names: seq<string>, width: nat)
    ensures width == 0 ==> forall x, y :: Cell(names, width, x, y) == ""
  {
  }

  lemma FilledCell(idef: ItemDefs, rec: seq<string>, width: nat, fill: seq<string>, x: int, y: int)
    requires idef.Valid() && |fill| == |rec| && forall i :: 0 <= i < |rec| ==> Matches(idef, fill[i], rec[i])
    ensures Matches(idef, Cell(fill, width, x, y), Cell(rec, width, x, y))
  {
    hide Matches;
    BlankMatches(idef);
  }

  // Where the recipe is blank so is the filling, and once more.
  lemma {:induction false} FewerItems(idef: ItemDefs, fill: seq<string>, rec: seq<string>)
    requires idef.Valid() && |fill| == |rec| && forall i :: 0 <= i < |rec| ==> Matches(idef, fill[i], rec[i])
    ensures |NonEmpty(fill)| <= |NonEmpty(rec)| <= |rec|
    ensures (exists i :: 0 <= i < |rec| && rec[i] != "" && fill[i] == "") ==> |NonEmpty(fill)| < |NonEmpty(rec)|
  {
    hide Matches;
    BlankMatches(idef);
    if rec != [] {
      FewerItems(idef, fill[1..], rec[1..]);
      forall i | 0 < i < |rec| && rec[i] != "" && fill[i] == ""
        ensures rec[1..][i - 1] != "" && fill[1..][i - 1] == ""
      {
      }
    }
  }

  lemma HandRecipeLost(idef: ItemDefs, hash: string -> u64, slot: string)
    requires idef.Valid() && IsGroupName(slot) && Matches(idef, "", slot)
    ensures var def := HandRecipe(slot);
      HAND_INPUT.Valid() && def in [def] && Crafts(idef, def, HAND_INPUT)
        && def !in LookupOrder(hash, [def], [], HAND_INPUT)
  {
    hide Accepts, DefHash, InputHash, GridHash, DefHashType, Filed, Reverse, Matches;
    var def := HandRecipe(slot);
    assert idef.IsKnown("") && slot != "" by {
      GroupMatchNeedsKnown(idef, "", slot);
    }
    HandRecipeAccepted(idef, slot);
    HandRecipeHash(hash, slot);
  }

  lemma GroupMatchNeedsKnown(idef: ItemDefs, name: string, slot: string)
    requires idef.Valid() && IsGroupName(slot) && Matches(idef, name, slot) && name != slot
    ensures idef.IsKnown(name)
  {
  }

  // One map from hashes to definitions for each layer.
  type Index = seq<map<int, seq<CraftDefinition>>>

  function Bucket(index: Index, layer: nat, h: int): seq<CraftDefinition>
    requires layer < |index|
  {
    if h in index[layer] then index[layer][h] else []
  }

  // The index holds exactly the given definitions, each bucket in order of registration.
  ghost predicate Indexes(index: Index, hash: string -> u64, hashed: seq<CraftDefinition>,
                          unhashed: seq<CraftDefinition>)
  {
    && |index| == 3
    && (forall h :: Bucket(index, 0, h) == Filed(hash, hashed, 0, h))
    && (forall h :: Bucket(index, 1, h) == Filed(hash, hashed, 1, h))
    && (forall h :: Bucket(index, 2, h) == if h == 0 then unhashed else [])
  }

  function Put(index: Index, layer: nat, h: int, defs: seq<CraftDefinition>): (r: Index)
    requires layer < |index|
    ensures |r| == |index|
    ensures forall l: nat, k :: l < |index| ==>
      Bucket(r, l, k) == (if l == layer && k == h then defs else Bucket(index, l, k))
  {
    index[layer := index[layer][h := defs]]
  }

  // Filing one more definition in its bucket.
  lemma FileHashed(index: Index, hash: string -> u64, hashed: seq<CraftDefinition>, unhashed: seq<CraftDefinition>,
                   def: CraftDefinition)
    requires Indexes(index, hash, hashed, unhashed)
    ensures var layer, h := DefHashType(def).Layer(), DefHash(hash, def);
      && layer < 2
      && Indexes(Put(index, layer, h, Bucket(index, layer, h) + [def]), hash, hashed + [def], unhashed)
  {
    hide Bucket, Filed, DefHash, DefHashType, Put;
    LayerOfDefinition(def);
    FiledNext(hash, hashed, def);
  }

  lemma LayerOfDefinition(def: CraftDefinition)
    ensures DefHashType(def).Layer() < 2
  {
  }

  function LayerKind(layer: nat): HashType {
    if layer == 0 then ITEM_NAMES else if layer == 1 then COUNT else UNHASHED
  }

  // The bucket looked up in a layer is the layer's share of the lookup order.
  lemma BucketIsLayer(index: Index, hash: string -> u64, hashed: seq<CraftDefinition>, unhashed: seq<CraftDefinition>,
                      input: CraftInput, layer: nat)
    requires Indexes(index, hash, hashed, unhashed) && layer < 3
    ensures VisitedBefore(hash, hashed, unhashed, input, layer + 1) ==
      VisitedBefore(hash, hashed, unhashed, input, layer)
      + Reverse(Bucket(index, layer, GridHash(hash, LayerKind(layer), Sort(ItemNames(input.items)))))
  {
    hide Bucket, Filed, Reverse, VisitedBefore, Sort;
    VisitLayer(hash, hashed, unhashed, input, layer);
  }

  lemma IndexLayers(index: Index, hash: string -> u64, hashed: seq<CraftDefinition>, unhashed: seq<CraftDefinition>)
    requires Indexes(index, hash, hashed, unhashed)
    ensures |index| == 3
  {
  }

  lemma NothingIsBest(idef: ItemDefs, input: CraftInput)
    requires idef.Valid()
    ensures Best(idef, [], input) == None
  {
  }

  lemma BestNext(idef: ItemDefs, order: seq<CraftDefinition>, def: CraftDefinition, input: CraftInput)
    requires idef.Valid()
    ensures var best := Best(idef, order, input);
      Best(idef, order + [def], input) ==
        if (best.None? || def.priority > best.value.priority) && Crafts(idef, def, input) then Some(def) else best
  {
    assert (order + [def])[..|order|] == order;
  }

  class CraftDefManager {
    const hash: string -> u64
    var craftDefs: Index
    // Definitions in order of registration, those already hashed first.
    ghost var hashed: seq<CraftDefinition>
    ghost var unhashed: seq<CraftDefinition>

    ghost function Registered(): seq<CraftDefinition>
      reads this
    {
      hashed + unhashed
    }

    ghost predicate Valid()
      reads this
    {
      Indexes(craftDefs, hash, hashed, unhashed)
    }

    constructor (hash: string -> u64)
      ensures Valid() && Registered() == [] && this.hash == hash
    {
      this.hash := hash;
      craftDefs := [map[], map[], map[]];
      hashed, unhashed := [], [];
    }

    method RegisterCraft(def: CraftDefinition)
      requires Valid()
      modifies this
      ensures Valid() && Registered() == old(Registered()) + [def]
      ensures hashed == old(hashed)
    {
      hide Bucket, Filed, Put;
      craftDefs := Put(craftDefs, 2, 0, Bucket(craftDefs, 2, 0) + [def]);
      unhashed := unhashed + [def];
    }

    // Moves the unhashed definitions to the layers above.
    method InitHashes()
      requires Valid()
      modifies this
      ensures Valid() && Registered() == old(Registered()) && unhashed == []
    {
      hide Bucket, Filed, DefHash, DefHashType, Put;
      var pending := Bucket(craftDefs, 2, 0);
      for i := 0 to |pending|
        invariant Indexes(craftDefs, hash, hashed, pending)
        invariant hashed == old(hashed) + pending[..i]
      {
        var def := pending[i];
        var layer, h := DefHashType(def).Layer(), DefHash(hash, def);
        FileHashed(craftDefs, hash, hashed, pending, def);
        craftDefs := Put(craftDefs, layer, h, Bucket(craftDefs, layer, h) + [def]);
        hashed := hashed + [def];
      }
      craftDefs := Put(craftDefs, 2, 0, []);
      unhashed := [];
    }

    // The best definition for the input, or None.
    method GetCraftResult(input: CraftInput, idef: ItemDefs) returns (best: Option<CraftDefinition>)
      requires Valid() && idef.Valid()
      ensures best == if input.Empty() then None else Best(idef, LookupOrder(hash, hashed, unhashed, input), input)
      // With no group accepting the hand, this is what a scan of all definitions would find.
      ensures HandFree(idef) && input.Valid() ==>
        (best.Some? <==> !input.Empty() && exists def :: def in Registered() && Crafts(idef, def, input))
      ensures best.Some? ==> best.value in Registered() && Crafts(idef, best.value, input)
      ensures HandFree(idef) && input.Valid() && best.Some? ==>
        forall def :: def in Registered() && Crafts(idef, def, input) ==> def.priority <= best.value.priority
    {
      hide Indexes, Bucket, GridHash, InputHash, Accepts, HandFree, OutputName, Sort, Reverse, Best, VisitedBefore,
        LookupOrder;
      best := None;
      if input.Empty() {
        return;
      }
      var names := Sort(ItemNames(input.items));
      ghost var visited := [];
      VisitLayer(hash, hashed, unhashed, input, 0);
      NothingIsBest(idef, input);
      for layer := 0 to 3
        invariant visited == VisitedBefore(hash, hashed, unhashed, input, layer)
        invariant best == Best(idef, visited, input)
      {
        var kind := LayerKind(layer);
        var h := GetHashForGrid(hash, kind, names);
        IndexLayers(craftDefs, hash, hashed, unhashed);
        BucketIsLayer(craftDefs, hash, hashed, unhashed, input, layer);
        var collisions := Bucket(craftDefs, layer, h);
        ghost var start := visited;
        var i: nat := |collisions|;
        while i > 0
          invariant i <= |collisions|
          invariant visited == start + Reverse(collisions[i..])
          invariant best == Best(idef, visited, input)
        {
          i := i - 1;
          var def := collisions[i];
          ReverseNext(collisions, i);
          BestNext(idef, visited, def, input);
          visited := visited + [def];
          if best.None? || def.priority > best.value.priority {
            var ok := Check(def, input, idef);
            if ok && idef.IsKnown(OutputName(idef, def, input)) {
              best := Some(def);
            }
          }
        }
        assert collisions[0..] == collisions;
      }
      VisitLayer(hash, hashed, unhashed, input, 2);
      LookupMeansScan(idef, hash, hashed, unhashed, input);
    }
  }
}
