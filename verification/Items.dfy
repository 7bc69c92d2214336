// Item names, item definitions, and the test of an item name against a recipe slot
// (src/craftdef.cpp:20-90, src/itemdef.cpp:401-436, src/itemgroup.h, src/util/strfnd.h).

module Items {
  import opened Numbers

  // A stack of equal items. The empty stack has count 0 and no name, wear or metadata.
  datatype ItemStack = ItemStack(name: string, count: u16, wear: u16, metadata: map<string, string>)
  {
    predicate Empty() {
      count == 0
    }

    ghost predicate Valid() {
      count == 0 <==> name == ""
    }
  }

  const NO_ITEM := ItemStack("", 0, 0, map[])

  datatype ItemDefinition = ItemDefinition(groups: map<string, int>, isTool: bool)

  // The registered definitions. Looking up an unregistered name gives the one named "unknown".
  datatype ItemDefs = ItemDefs(aliases: map<string, string>, defs: map<string, ItemDefinition>)
  {
    ghost predicate Valid() {
      "unknown" in defs
    }

    function GetAlias(name: string): string {
      if name in aliases then aliases[name] else name
    }

    predicate IsKnown(name: string) {
      GetAlias(name) in defs
    }

    function Get(name: string): ItemDefinition
      requires Valid()
    {
      if GetAlias(name) in defs then defs[GetAlias(name)] else defs["unknown"]
    }
  }

  function GroupGet(groups: map<string, int>, name: string): int {
    if name in groups then groups[name] else 0
  }

  predicate StartsWith(s: string, prefix: string) {
    |prefix| <= |s| && s[..|prefix|] == prefix
  }

  const GROUP_PREFIX := "group:"

  predicate IsGroupName(name: string) {
    StartsWith(name, GROUP_PREFIX)
  }

  // The position of the first comma at or after pos, or the end.
  function FindComma(s: string, pos: nat): (n: nat)
    requires pos <= |s|
    ensures pos <= n <= |s|
    ensures ',' !in s[pos..n]
    ensures n < |s| ==> s[n] == ','
    decreases |s| - pos
  {
    if pos == |s| then pos else if s[pos] == ',' then pos else FindComma(s, pos + 1)
  }

  // The groups a slot "group:<spec>" names, read from position pos. An empty specification
  // names the group "", and a trailing comma adds nothing.
  function GroupsFrom(spec: string, pos: nat): (groups: seq<string>)
    requires pos <= |spec|
    decreases |spec| - pos
  {
    var n := FindComma(spec, pos);
    [spec[pos..n]] + if n + 1 < |spec| then GroupsFrom(spec, n + 1) else []
  }

  // An item fits a slot with its own name, or a group slot if it is known and in all the groups.
  predicate Matches(idef: ItemDefs, inpName: string, recName: string)
    requires idef.Valid()
  {
    inpName == recName || (IsGroupName(recName) && MatchesGroups(idef, inpName, recName[|GROUP_PREFIX|..]))
  }

  predicate MatchesGroups(idef: ItemDefs, name: string, spec: string)
    requires idef.Valid()
  {
    idef.IsKnown(name) && InAll(idef.Get(name).groups, GroupsFrom(spec, 0))
  }

  // That is, with aliases, definitions and the prefix written out.
  lemma MatchesMeans(idef: ItemDefs, name: string, slot: string)
    requires idef.Valid()
    ensures Matches(idef, name, slot) <==>
      name == slot
      || (|slot| >= 6 && slot[..6] == "group:"
          && var key := if name in idef.aliases then idef.aliases[name] else name;
            key in idef.defs && forall g :: g in GroupsFrom(slot[6..], 0) ==>
            g in idef.defs[key].groups && idef.defs[key].groups[g] != 0)
  {
  }

  function Joined(parts: seq<string>): string {
    if parts == [] then "" else if |parts| == 1 then parts[0] else parts[0] + "," + Joined(parts[1..])
  }

  // The groups of a slot are the parts between its commas; a comma at the end is left out.
  ghost predicate Parts(spec: string, parts: seq<string>) {
    && parts != [] && (forall g :: g in parts ==> ',' !in g)
    && (spec == Joined(parts) + "," || (spec == Joined(parts) && (|parts| == 1 || parts[|parts| - 1] != "")))
  }

  lemma PartsCons(g: string, tail: string, rest: seq<string>)
    requires ',' !in g && tail != "" && Parts(tail, rest)
    ensures Parts(g + "," + tail, [g] + rest)
  {
    assert ([g] + rest)[1..] == rest;
    assert Joined([g] + rest) == g + "," + Joined(rest);
    assert g + "," + (Joined(rest) + ",") == Joined([g] + rest) + ",";
    assert ([g] + rest)[|rest|] == rest[|rest| - 1];
  }

  lemma {:induction false} GroupsAreParts(spec: string, pos: nat)
    requires pos <= |spec|
    ensures Parts(spec[pos..], GroupsFrom(spec, pos))
    decreases |spec| - pos
  {
    hide Parts, GroupsFrom;
    var n := FindComma(spec, pos);
    NextGroup(spec, pos);
    if n + 1 < |spec| {
      GroupsAreParts(spec, n + 1);
      PartsCons(spec[pos..n], spec[n + 1..], GroupsFrom(spec, n + 1));
    } else {
      LastPart(spec[pos..n]);
    }
  }

  lemma NextGroup(spec: string, pos: nat)
    requires pos <= |spec|
    ensures var n := FindComma(spec, pos);
      GroupsFrom(spec, pos) == if n + 1 < |spec| then [spec[pos..n]] + GroupsFrom(spec, n + 1) else [spec[pos..n]]
    ensures var n := FindComma(spec, pos);
      n < |spec| ==> spec[pos..] == spec[pos..n] + "," + spec[n + 1..]
    ensures FindComma(spec, pos) + 1 >= |spec| ==>
      var g := spec[pos..FindComma(spec, pos)];
      spec[pos..] == if FindComma(spec, pos) < |spec| then g + "," else g
  {
    hide GroupsFrom;
    var n := FindComma(spec, pos);
    if n < |spec| {
      SplitAt(spec, pos, n);
    } else {
      assert spec[pos..] == spec[pos..n];
    }
    GroupsUnfold(spec, pos);
  }

  lemma GroupsUnfold(spec: string, pos: nat)
    requires pos <= |spec|
    ensures var n := FindComma(spec, pos);
      GroupsFrom(spec, pos) == if n + 1 < |spec| then [spec[pos..n]] + GroupsFrom(spec, n + 1) else [spec[pos..n]]
  {
  }

  lemma SplitAt(spec: string, pos: nat, n: nat)
    requires pos <= n < |spec| && spec[n] == ','
    ensures spec[pos..] == spec[pos..n] + "," + spec[n + 1..]
    ensures n + 1 == |spec| ==> spec[pos..] == spec[pos..n] + ","
  {
    assert spec[n..] == "," + spec[n + 1..];
    assert spec[pos..] == spec[pos..n] + spec[n..];
  }

  lemma LastPart(g: string)
    requires ',' !in g
    ensures Parts(g, [g]) && Parts(g + ",", [g])
  {
  }

  predicate InAll(groups: map<string, int>, names: seq<string>) {
    forall g :: g in names ==> GroupGet(groups, g) != 0
  }

  lemma InAllStep(groups: map<string, int>, spec: string, pos: nat)
    requires pos <= |spec|
    ensures var n := FindComma(spec, pos);
      InAll(groups, GroupsFrom(spec, pos)) ==
        (GroupGet(groups, spec[pos..n]) != 0 && (n + 1 < |spec| ==> InAll(groups, GroupsFrom(spec, n + 1))))
  {
    assert spec[pos..FindComma(spec, pos)] in GroupsFrom(spec, pos);
  }

  method InputItemMatchesRecipe(inpName: string, recName: string, idef: ItemDefs) returns (matches: bool)
    requires idef.Valid()
    ensures matches == Matches(idef, inpName, recName)
  {
    if inpName == recName {
      return true;
    }
    matches := false;
    if IsGroupName(recName) && idef.IsKnown(inpName) {
      hide InAll, GroupsFrom;
      matches := HasAllGroups(idef.Get(inpName).groups, recName[|GROUP_PREFIX|..]);
    }
  }

  // The loop over the groups of a slot.
  method HasAllGroups(groups: map<string, int>, spec: string) returns (all: bool)
    ensures all == InAll(groups, GroupsFrom(spec, 0))
  {
    hide InAll, GroupsFrom;
    var pos := 0;
    while true
      invariant pos <= |spec|
      invariant InAll(groups, GroupsFrom(spec, 0)) == InAll(groups, GroupsFrom(spec, pos))
      decreases |spec| - pos
    {
      InAllStep(groups, spec, pos);
      var n := FindComma(spec, pos);
      var checkGroup := spec[pos..n];
      if GroupGet(groups, checkGroup) == 0 {
        return false;
      }
      if n + 1 >= |spec| {
        return true;
      }
      pos := n + 1;
    }
  }

  // ---- the order of std::string and sorting

  predicate Less(a: string, b: string) {
    b != "" && (a == "" || a[0] < b[0] || (a[0] == b[0] && Less(a[1..], b[1..])))
  }

  // That is, at the first character in which they differ, or by being cut short.
  ghost predicate LessAt(a: string, b: string, k: nat) {
    k <= |a| && k < |b| && a[..k] == b[..k] && (k == |a| || a[k] < b[k])
  }

  lemma {:induction false} LessMeans(a: string, b: string)
    ensures Less(a, b) <==> exists k: nat :: LessAt(a, b, k)
  {
    if a == "" || b == "" {
      assert LessAt(a, b, 0) <==> Less(a, b);
    } else if a[0] != b[0] {
      forall k: nat | LessAt(a, b, k)
        ensures k == 0
      {
        if k > 0 {
          SameStart(a, b, k);
        }
      }
      assert LessAt(a, b, 0) <==> Less(a, b);
    } else {
      LessMeans(a[1..], b[1..]);
      forall k: nat | LessAt(a[1..], b[1..], k)
        ensures LessAt(a, b, k + 1)
      {
        assert a[..k + 1] == [a[0]] + a[1..][..k] && b[..k + 1] == [b[0]] + b[1..][..k];
      }
      forall k: nat | LessAt(a, b, k)
        ensures k > 0 && LessAt(a[1..], b[1..], k - 1)
      {
        assert a[1..][..k - 1] == a[..k][1..] && b[1..][..k - 1] == b[..k][1..];
      }
    }
  }

  lemma SameStart(a: string, b: string, k: nat)
    requires 0 < k <= |a| && k <= |b| && a[..k] == b[..k]
    ensures a[0] == b[0]
  {
    assert a[..k][0] == b[..k][0];
  }

  lemma {:induction false} LessTotal(a: string, b: string)
    ensures Less(a, b) || a == b || Less(b, a)
    ensures !(Less(a, b) && Less(b, a))
    ensures !Less(a, a)
  {
    if a != "" {
      LessTotal(a[1..], a[1..]);
    }
    if a != "" && b != "" && a[0] == b[0] {
      LessTotal(a[1..], b[1..]);
      assert a == [a[0]] + a[1..] && b == [b[0]] + b[1..];
    }
  }

  lemma LessTransitive(a: string, b: string, c: string)
    requires Less(a, b) && Less(b, c)
    ensures Less(a, c)
  {
  }

  ghost predicate Sorted(s: seq<string>) {
    forall i, j :: 0 <= i < j < |s| ==> !Less(s[j], s[i])
  }

  function Insert(x: string, s: seq<string>): (r: seq<string>)
    ensures multiset(r) == multiset{x} + multiset(s)
  {
    if s == [] then [x]
    else if Less(s[0], x) then
      assert s == [s[0]] + s[1..];
      [s[0]] + Insert(x, s[1..])
    else [x] + s
  }

  lemma {:induction false} InsertSorted(x: string, s: seq<string>)
    requires Sorted(s)
    ensures Sorted(Insert(x, s))
  {
    var r := Insert(x, s);
    if s != [] && Less(s[0], x) {
      InsertSorted(x, s[1..]);
      LessTotal(s[0], x);
      forall j | 1 <= j < |r| ensures !Less(r[j], r[0]) {
        assert r[j] in multiset(Insert(x, s[1..]));
        assert r[j] == x || r[j] in s[1..];
      }
    } else if s != [] {
      forall j | 1 <= j < |r| ensures !Less(r[j], x) {
        LessTotal(s[0], r[j]);
        if Less(r[j], x) && s[0] != r[j] {
          LessTransitive(s[0], r[j], x);
        }
      }
    }
  }

  // std::sort on names.
  function Sort(s: seq<string>): (r: seq<string>)
    ensures multiset(r) == multiset(s)
  {
    if s == [] then [] else
      assert s == [s[0]] + s[1..];
      Insert(s[0], Sort(s[1..]))
  }

  lemma {:induction false} SortSorted(s: seq<string>)
    ensures Sorted(Sort(s))
  {
    if s != [] {
      SortSorted(s[1..]);
      InsertSorted(s[0], Sort(s[1..]));
    }
  }

  // A multiset of names has only one sorted listing.
  lemma {:induction false} SortedUnique(a: seq<string>, b: seq<string>)
    requires Sorted(a) && Sorted(b) && multiset(a) == multiset(b)
    ensures a == b
  {
    hide Less;
    SameSize(a, b);
    if a != [] {
      SameFirst(a, b);
      RestsAlike(a, b);
      SortedRest(a);
      SortedRest(b);
      SortedUnique(a[1..], b[1..]);
      assert a == [a[0]] + a[1..] && b == [b[0]] + b[1..];
    }
  }

  lemma SameSize(a: seq<string>, b: seq<string>)
    requires multiset(a) == multiset(b)
    ensures |a| == |b|
  {
    assert |a| == |multiset(a)| && |b| == |multiset(b)|;
  }

  lemma SameFirst(a: seq<string>, b: seq<string>)
    requires Sorted(a) && Sorted(b) && multiset(a) == multiset(b) && a != [] && b != []
    ensures a[0] == b[0]
  {
    assert a[0] in multiset(b) && b[0] in multiset(a);
    LessTotal(a[0], b[0]);
  }

  lemma RestsAlike(a: seq<string>, b: seq<string>)
    requires multiset(a) == multiset(b) && a != [] && b != [] && a[0] == b[0]
    ensures multiset(a[1..]) == multiset(b[1..])
  {
    RestOf(a);
    RestOf(b);
  }

  lemma RestOf(a: seq<string>)
    requires a != []
    ensures multiset(a[1..]) == multiset(a) - multiset{a[0]}
  {
    assert a == [a[0]] + a[1..];
  }

  lemma SortedRest(a: seq<string>)
    requires Sorted(a) && a != []
    ensures Sorted(a[1..])
  {
    hide Less;
  }
}
