// Assigning input items to recipe slots one to one, and how such assignments behave under
// reordering and under taking exact-name slots out.

module Assignments {
  import opened Graphs
  import opened Items

  // m sends item i to slot m[i]; both sides have the same size, so m is a bijection.
  ghost predicate IsAssignment(idef: ItemDefs, inp: seq<string>, rec: seq<string>, m: seq<nat>)
    requires idef.Valid()
  {
    && |m| == |inp| == |rec|
    && Injective(m)
    && forall i :: 0 <= i < |m| ==> m[i] < |rec| && Matches(idef, inp[i], rec[m[i]])
  }

  ghost predicate Assignable(idef: ItemDefs, inp: seq<string>, rec: seq<string>)
    requires idef.Valid()
  {
    exists m :: IsAssignment(idef, inp, rec, m)
  }

  ghost predicate NoGroups(names: seq<string>) {
    forall x :: x in names ==> !IsGroupName(x)
  }

  // p lists, for each position of a, a position of b holding the same name, all different.
  ghost predicate IsReordering(a: seq<string>, b: seq<string>, p: seq<nat>) {
    && |p| == |a| == |b|
    && Injective(p)
    && forall i :: 0 <= i < |p| ==> p[i] < |b| && b[p[i]] == a[i]
  }

  function Without<T>(s: seq<T>, k: nat): (r: seq<T>)
    requires k < |s|
    ensures |r| == |s| - 1
    ensures forall i :: 0 <= i < |r| ==> r[i] == s[if i < k then i else i + 1]
  {
    s[..k] + s[k + 1..]
  }

  lemma WithoutMultiset(s: seq<string>, k: nat)
    requires k < |s|
    ensures multiset(Without(s, k)) == multiset(s) - multiset{s[k]}
  {
    assert s == s[..k] + [s[k]] + s[k + 1..];
  }

  // Positions in s read as positions in s with one place inserted at k, and back.
  function Shift(q: seq<nat>, k: nat): (r: seq<nat>)
    ensures |r| == |q|
    ensures forall j :: 0 <= j < |q| ==> r[j] == if q[j] < k then q[j] else q[j] + 1
  {
    seq(|q|, j requires 0 <= j < |q| => if q[j] < k then q[j] else q[j] + 1)
  }

  function Unshift(q: seq<nat>, k: nat): (r: seq<nat>)
    requires k !in q
    ensures |r| == |q|
    ensures forall j :: 0 <= j < |q| ==> r[j] == if q[j] < k then q[j] else q[j] - 1
  {
    seq(|q|, j requires 0 <= j < |q| => if q[j] < k then q[j] else q[j] - 1)
  }

  lemma ExtendReordering(a: seq<string>, b: seq<string>, k: nat, q: seq<nat>)
    requires a != [] && k < |b| && b[k] == a[0] && IsReordering(a[1..], Without(b, k), q)
    ensures IsReordering(a, b, [k] + Shift(q, k))
  {
    var p := [k] + Shift(q, k);
    forall i | 0 <= i < |p| ensures p[i] < |b| && b[p[i]] == a[i] {
      if i > 0 {
        assert Without(b, k)[q[i - 1]] == a[1..][i - 1];
      }
    }
    forall i, j | 0 <= i < j < |p| ensures p[i] != p[j] {
      if i > 0 {
        assert q[i - 1] != q[j - 1];
      }
    }
  }

  lemma {:induction false} Reordering(a: seq<string>, b: seq<string>) returns (p: seq<nat>)
    requires multiset(a) == multiset(b)
    ensures IsReordering(a, b, p)
    decreases |a|
  {
    assert |a| == |multiset(a)| == |multiset(b)| == |b|;
    if a == [] {
      p := [];
    } else {
      assert a[0] in multiset(b);
      var k :| 0 <= k < |b| && b[k] == a[0];
      WithoutMultiset(b, k);
      assert multiset(a[1..]) == multiset(a) - multiset{a[0]} by {
        assert a == [a[0]] + a[1..];
      }
      var q := Reordering(a[1..], Without(b, k));
      ExtendReordering(a, b, k, q);
      p := [k] + Shift(q, k);
    }
  }

  // Only the multisets of items and slots matter.
  lemma ReorderAssignment(idef: ItemDefs, inp: seq<string>, rec: seq<string>, inp': seq<string>, rec': seq<string>)
    requires idef.Valid() && Assignable(idef, inp, rec)
    requires multiset(inp) == multiset(inp') && multiset(rec) == multiset(rec')
    ensures Assignable(idef, inp', rec')
  {
    var m :| IsAssignment(idef, inp, rec, m);
    var p := Reordering(inp', inp);
    var q := Reordering(rec, rec');
    var m' := seq(|p|, i requires 0 <= i < |p| => q[m[p[i]]]);
    forall i, j | 0 <= i < j < |m'| ensures m'[i] != m'[j] {
      assert p[i] != p[j];
      assert m[p[i]] != m[p[j]];
    }
    assert IsAssignment(idef, inp', rec', m');
  }

  // An injective map into as many values hits each of them.
  lemma Surjective(m: seq<nat>, k: nat)
    requires Injective(m) && k < |m| && forall i :: 0 <= i < |m| ==> m[i] < |m|
    ensures k in m
  {
    ImageSize(Below(|m|), m);
    var image := set x | x in Below(|m|) :: m[x];
    if k !in m {
      SubsetSize(image, Below(|m|) - {k});
    }
  }

  // Taking an item and its slot away.
  lemma DropPair(idef: ItemDefs, inp: seq<string>, rec: seq<string>, m: seq<nat>, i: nat)
    requires idef.Valid() && IsAssignment(idef, inp, rec, m) && i < |m|
    ensures Assignable(idef, Without(inp, i), Without(rec, m[i]))
  {
    var k := m[i];
    var r := Without(m, i);
    forall j | 0 <= j < |r| ensures r[j] != k {}
    var m' := Unshift(r, k);
    forall a, b | 0 <= a < b < |m'| ensures m'[a] != m'[b] {
      assert r[a] != r[b];
    }
    assert IsAssignment(idef, Without(inp, i), Without(rec, k), m');
  }

  // An exact-name slot can only take an item of its own name.
  lemma DropExactSlot(idef: ItemDefs, inp: seq<string>, rec: seq<string>)
    requires idef.Valid() && Assignable(idef, inp, rec) && rec != [] && !IsGroupName(rec[0])
    ensures exists i :: 0 <= i < |inp| && inp[i] == rec[0] && Assignable(idef, Without(inp, i), rec[1..])
  {
    var m :| IsAssignment(idef, inp, rec, m);
    Surjective(m, 0);
    var i :| 0 <= i < |m| && m[i] == 0;
    DropPair(idef, inp, rec, m, i);
    assert Without(rec, 0) == rec[1..];
  }

  // Exact-name slots demand their own names.
  lemma {:induction false} ExactNamesPresent(idef: ItemDefs, inp: seq<string>, names: seq<string>, groups: seq<string>)
    requires idef.Valid() && Assignable(idef, inp, names + groups) && NoGroups(names)
    ensures multiset(names) <= multiset(inp)
    decreases |names|
  {
    if names != [] {
      var rec := names + groups;
      DropExactSlot(idef, inp, rec);
      var i :| 0 <= i < |inp| && inp[i] == rec[0] && Assignable(idef, Without(inp, i), rec[1..]);
      assert rec[1..] == names[1..] + groups;
      ExactNamesPresent(idef, Without(inp, i), names[1..], groups);
      WithoutMultiset(inp, i);
      assert names == [names[0]] + names[1..];
    }
  }

  // A slot and an item of the same name can be paired in front of any assignment.
  lemma AddPair(idef: ItemDefs, name: string, inp: seq<string>, rec: seq<string>)
    requires idef.Valid() && Assignable(idef, inp, rec)
    ensures Assignable(idef, [name] + inp, [name] + rec)
  {
    var m :| IsAssignment(idef, inp, rec, m);
    assert IsAssignment(idef, [name] + inp, [name] + rec, [0] + Shift(m, 0));
  }

  lemma DropExactPair(idef: ItemDefs, name: string, inp: seq<string>, rec: seq<string>)
    requires idef.Valid() && !IsGroupName(name) && Assignable(idef, [name] + inp, [name] + rec)
    ensures Assignable(idef, inp, rec)
  {
    var inp', rec' := [name] + inp, [name] + rec;
    DropExactSlot(idef, inp', rec');
    var i :| 0 <= i < |inp'| && inp'[i] == name && Assignable(idef, Without(inp', i), rec'[1..]);
    WithoutMultiset(inp', i);
    assert rec'[1..] == rec;
    ReorderAssignment(idef, Without(inp', i), rec, inp, rec);
  }

  // Giving exact-name slots items of those names never costs a solution.
  lemma {:induction false} ExactNamesFirst(idef: ItemDefs, names: seq<string>, inp: seq<string>, groups: seq<string>)
    requires idef.Valid() && NoGroups(names)
    ensures Assignable(idef, names + inp, names + groups) <==> Assignable(idef, inp, groups)
    decreases |names|
  {
    hide Assignable;
    if names == [] {
      assert names + inp == inp && names + groups == groups;
    } else {
      var inp', rec' := names[1..] + inp, names[1..] + groups;
      ExactNamesFirst(idef, names[1..], inp, groups);
      assert names + groups == [names[0]] + rec' && names + inp == [names[0]] + inp';
      if Assignable(idef, inp', rec') {
        AddPair(idef, names[0], inp', rec');
      }
      if Assignable(idef, [names[0]] + inp', [names[0]] + rec') {
        DropExactPair(idef, names[0], inp', rec');
      }
    }
  }
}
