// The random numbers of src/noise.cpp:53-129: a step that loses no state, and drawing from a range
// without bias, which holds for any generator.

module RandomRange {
  import opened Numbers
  import opened Arithmetic

  const WORD := 0x1_0000_0000

  datatype Generator = Generator(step: u64 -> u64, output: u64 -> u32)

  // The state after n draws.
  function After(g: Generator, state: u64, n: nat): u64 {
    if n == 0 then state else g.step(After(g, state, n - 1))
  }

  // Output number n.
  function Draw(g: Generator, state: u64, n: nat): u32 {
    g.output(After(g, state, n))
  }

  // Output n is the first that is not rejected.
  ghost predicate FirstAccepted(g: Generator, state: u64, threshold: nat, n: nat) {
    Draw(g, state, n) >= threshold && forall k: nat :: k < n ==> Draw(g, state, k) < threshold
  }

  // -bound % bound in 32-bit arithmetic: outputs below it would favour small results.
  function Threshold(bound: u32): (t: nat)
    requires bound > 0
    ensures t < bound
  {
    (WORD - bound) % bound
  }

  lemma ThresholdIsRest(bound: u32)
    requires bound > 0
    ensures Threshold(bound) == WORD % bound
    ensures WORD == WORD / bound * bound + Threshold(bound)
  {
    assert WORD == WORD / bound * bound + WORD % bound;
    DivMod(bound, WORD % bound, WORD / bound - 1);
    assert WORD - bound == (WORD / bound - 1) * bound + WORD % bound;
  }

  // ---- the generator

  const STATES := 0x1_0000_0000_0000_0000
  const MULTIPLIER := 6364136223846793005
  // Its inverse modulo 2^64.
  const INVERSE := 13877824140714322085

  function Step(inc: u64, state: u64): u64 {
    (state * MULTIPLIER + inc) % STATES
  }

  function StepBack(inc: u64, state: u64): u64 {
    (state + (STATES - inc)) * INVERSE % STATES
  }

  // 32 bits of the state, rotated by its five highest bits.
  function Shifted(state: bv64): bv32 {
    ((((state >> 18) ^ state) >> 27) & 0xFFFF_FFFF) as bv32
  }

  function Rotated(x: bv32, rot: bv32): bv32
    requires rot < 32
  {
    (x >> rot) | (x << ((0 - rot) & 31))
  }

  function Output(state: bv64): bv32 {
    Rotated(Shifted(state), (state >> 59) as bv32)
  }

  // The output before the rotation: 32 bits of the state from bit 27 on, flipped by those from bit 45 on.
  lemma ShiftedMeans(state: bv64)
    ensures Shifted(state) as bv64 == ((state >> 27) ^ (state >> 45)) & 0xFFFF_FFFF
  {
  }

  // Bit k of a rotation is bit k + rot modulo 32.
  lemma RotatedBit(x: bv32, rot: bv32, k: bv32)
    requires rot < 32 && k < 32
    ensures (Rotated(x, rot) >> k) & 1 == (x >> ((k + rot) & 31)) & 1
  {
    if k + rot < 32 {
      LowPart(x, rot, k);
    } else {
      HighPart(x, rot, k);
    }
  }

  lemma LowPart(x: bv32, rot: bv32, k: bv32)
    requires rot < 32 && k < 32 && k + rot < 32
    ensures (((x >> rot) | (x << ((0 - rot) & 31))) >> k) & 1 == (x >> (k + rot)) & 1
  {
  }

  lemma HighPart(x: bv32, rot: bv32, k: bv32)
    requires rot < 32 && k < 32 && k + rot >= 32
    ensures (((x >> rot) | (x << ((0 - rot) & 31))) >> k) & 1 == (x >> (k + rot - 32)) & 1
  {
  }

  // So the output is 32 bits, each one bit of the state or two of them compared, rotated by the state's
  // five highest bits.
  lemma OutputMeans(state: bv64)
    ensures var y, rot := (((state >> 27) ^ (state >> 45)) & 0xFFFF_FFFF) as bv32, (state >> 59) as bv32;
      rot < 32 && Output(state) == Rotated(y, rot)
  {
    hide Rotated;
  }

  function OutputOf(state: u64): u32 {
    Output(state as bv64) as u32
  }

  function Pcg(inc: u64): Generator {
    Generator((s: u64) => Step(inc, s), (s: u64) => OutputOf(s))
  }

  lemma AddMultiple(a: int, k: int, m: nat)
    requires m > 0
    ensures (a + k * m) % m == a % m
  {
    var q, r := a / m, a % m;
    assert a + k * m == (q + k) * m + r;
    RestIs(a + k * m, q + k, r, m);
  }

  lemma RestIs(a: int, q: int, r: nat, m: nat)
    requires r < m && a == q * m + r
    ensures a % m == r
  {
    var q', r' := a / m, a % m;
    assert a == q' * m + r';
    assert (q - q') * m == r' - r;
    NoMultiple(q - q', m);
  }

  lemma NoMultiple(k: int, m: nat)
    ensures k >= 1 ==> k * m >= m
    ensures k <= -1 ==> k * m + m <= 0
  {
    if k >= 1 {
      MulMonotone(1, k, m);
    } else if k <= -1 {
      MulMonotone(1, -k, m);
    }
  }

  // Every state has exactly one predecessor: there is none but StepBack, and that is one.
  lemma StepUndone(inc: u64, state: u64)
    ensures StepBack(inc, Step(inc, state)) == state && Step(inc, StepBack(inc, state)) == state
  {
    StepThenBack(inc, state);
    BackThenStep(inc, state);
  }

  lemma BackThenStep(inc: u64, state: u64)
    ensures Step(inc, StepBack(inc, state)) == state
  {
    var a := (state + (STATES - inc)) * INVERSE;
    var q := a / STATES;
    assert StepBack(inc, state) == a - q * STATES;
    var k := (MULTIPLIER * INVERSE - 1) / STATES;
    assert MULTIPLIER * INVERSE == 1 + k * STATES;
    var n := (state + (STATES - inc)) * k + 1 - q * MULTIPLIER;
    assert StepBack(inc, state) * MULTIPLIER + inc == state + n * STATES;
    AddMultiple(state, n, STATES);
  }

  lemma StepThenBack(inc: u64, state: u64)
    ensures StepBack(inc, Step(inc, state)) == state
  {
    var a := state * MULTIPLIER + inc;
    var q := a / STATES;
    assert Step(inc, state) == a - q * STATES;
    var k := (MULTIPLIER * INVERSE - 1) / STATES;
    assert MULTIPLIER * INVERSE == 1 + k * STATES;
    var n := state * k + (1 - q) * INVERSE;
    assert (Step(inc, state) + (STATES - inc)) * INVERSE == state + n * STATES;
    AddMultiple(state, n, STATES);
  }

  lemma StepOneToOne(inc: u64, s: u64, t: u64)
    ensures Step(inc, s) == Step(inc, t) <==> s == t
  {
    StepUndone(inc, s);
    StepUndone(inc, t);
  }

  // The state a generator is seeded with.
  function Seeded(inc: u64, state: u64): u64 {
    Step(inc, (Step(inc, 0) + state) % STATES)
  }

  lemma SeededOneToOne(inc: u64, s: u64, t: u64)
    ensures Seeded(inc, s) == Seeded(inc, t) <==> s == t
  {
    hide Step;
    var z := Step(inc, 0);
    AddOneToOne(z, s, t);
    StepOneToOne(inc, (z + s) % STATES, (z + t) % STATES);
  }

  lemma AddOneToOne(z: u64, s: u64, t: u64)
    ensures (z + s) % STATES == (z + t) % STATES <==> s == t
  {
    AddedRest(z, s);
    AddedRest(z, t);
  }

  lemma AddedRest(z: u64, s: u64)
    ensures (z + s) % STATES == if z + s < STATES then z + s else z + s - STATES
  {
  }

  // ---- counting

  ghost function Hits(from: nat, to: nat, bound: nat, v: nat): set<nat>
    requires bound > 0
  {
    set d: nat | from <= d < to && d % bound == v
  }

  // A window of bound consecutive numbers holds exactly one with a given remainder.
  lemma OneHit(from: nat, bound: nat, v: nat)
    requires v < bound
    ensures |Hits(from, from + bound, bound, v)| == 1
  {
    var d := HitIn(from, bound, v);
    forall e: nat | from <= e < from + bound && e % bound == v
      ensures e == d
    {
      OnlyHit(from, bound, v, d, e);
    }
    assert Hits(from, from + bound, bound, v) == {d};
  }

  lemma HitIn(from: nat, bound: nat, v: nat) returns (d: nat)
    requires v < bound
    ensures from <= d < from + bound && d % bound == v
  {
    var q, r := from / bound, from % bound;
    assert from == q * bound + r;
    var k := if v >= r then q else q + 1;
    d := k * bound + v;
    assert (q + 1) * bound == q * bound + bound;
    DivMod(bound, v, k);
  }

  lemma OnlyHit(from: nat, bound: nat, v: nat, d: nat, e: nat)
    requires v < bound && from <= d < from + bound && d % bound == v && from <= e < from + bound && e % bound == v
    ensures e == d
  {
    assert d == d / bound * bound + v;
    assert e == e / bound * bound + v;
    SameRemainder(bound, e / bound, d / bound, v, from);
  }

  lemma SameRemainder(bound: nat, a: nat, b: nat, v: nat, from: nat)
    requires from <= a * bound + v < from + bound && from <= b * bound + v < from + bound
    ensures a == b
  {
    assert (a + 1) * bound == a * bound + bound;
    assert (b + 1) * bound == b * bound + bound;
    if a < b {
      MulMonotone(a + 1, b, bound);
    } else if b < a {
      MulMonotone(b + 1, a, bound);
    }
  }

  lemma {:induction false} HitsInWindows(from: nat, windows: nat, bound: nat, v: nat)
    requires v < bound
    ensures |Hits(from, from + windows * bound, bound, v)| == windows
  {
    if windows == 0 {
      assert Hits(from, from + windows * bound, bound, v) == {};
    } else {
      var mid := from + (windows - 1) * bound;
      assert mid + bound == from + windows * bound;
      HitsInWindows(from, windows - 1, bound, v);
      OneHit(mid, bound, v);
      assert Hits(from, mid + bound, bound, v) == Hits(from, mid, bound, v) + Hits(mid, mid + bound, bound, v);
    }
  }

  // Every result of range(bound) stems from the same number of accepted outputs.
  lemma Unbiased(bound: u32, v: nat)
    requires bound >= 2 && v < bound
    ensures |Hits(Threshold(bound), WORD, bound, v)| == WORD / bound
  {
    ThresholdIsRest(bound);
    HitsInWindows(Threshold(bound), WORD / bound, bound, v);
  }

  class PcgRandom {
    const inc: u64
    const g: Generator := Pcg(inc)
    var state: u64

    // The increment is made odd, and the seed is stirred in between two steps.
    constructor (seed: u64, sequence: u64)
      ensures inc == 2 * sequence % STATES + 1
      ensures state == Seeded(inc, seed)
    {
      hide OutputOf, Pcg;
      inc := 2 * sequence % STATES + 1;
      state := 0;
      new;
      var _ := Next();
      state := (state + seed) % STATES;
      var _ := Next();
    }

    method Next() returns (r: u32)
      modifies this
      ensures state == (old(state) * 6364136223846793005 + inc) % 0x1_0000_0000_0000_0000
      ensures state == Step(inc, old(state)) && r == OutputOf(old(state))
      ensures r == g.output(old(state)) && state == g.step(old(state))
    {
      hide OutputOf;
      r := OutputOf(state);
      state := Step(inc, state);
    }

    // Draws until an output is accepted; rounds says that one of the coming outputs is.
    method Range(bound: u32, ghost rounds: nat) returns (r: u32)
      requires bound > 1 ==> Draw(g, state, rounds) >= Threshold(bound)
      modifies this
      ensures bound == 0 ==> r == Draw(g, old(state), 0) && state == After(g, old(state), 1)
      ensures bound == 1 ==> r == 0 && state == old(state)
      ensures bound > 0 ==> r < bound
      // The result is the remainder of the first accepted output.
      ensures bound > 1 ==> exists n: nat :: (
                              && FirstAccepted(g, old(state), Threshold(bound), n)
                              && r == Draw(g, old(state), n) % bound && state == After(g, old(state), n + 1))
    {
      hide Pcg, OutputOf, Step;
      if bound == 0 {
        r := Next();
        return;
      }
      if bound == 1 {
        return 0;
      }
      var threshold := Threshold(bound);
      ghost var start, n: nat := state, 0;
      r := Next();
      while r < threshold
        invariant n <= rounds && r == Draw(g, start, n) && state == After(g, start, n + 1)
        invariant forall k: nat :: k < n ==> Draw(g, start, k) < threshold
        decreases rounds - n
      {
        r := Next();
        n := n + 1;
      }
      r := r % bound;
    }

    // The signed form: every s32 range works, the full one through a bound that wraps to 0.
    method SignedRange(min: s32, max: s32, ghost rounds: nat) returns (r: s32)
      requires min <= max
      requires Bound(min, max) > 1 ==> Draw(g, state, rounds) >= Threshold(Bound(min, max))
      modifies this
      ensures min <= r <= max
      ensures Bound(min, max) > 1 ==> exists n: nat :: (
                                        && FirstAccepted(g, old(state), Threshold(Bound(min, max)), n)
                                        && r == min + Draw(g, old(state), n) % Bound(min, max))
      ensures Bound(min, max) == 0 ==> (r - min) % WORD == Draw(g, old(state), 0)
      ensures Bound(min, max) == 0 <==> min == -0x8000_0000 && max == 0x7fff_ffff
    {
      hide FirstAccepted, Draw, After, Threshold, Pcg, OutputOf, Step;
      var bound := Bound(min, max);
      var draw := Range(bound, rounds);
      SignedResult(min, max, draw);
      r := ToSigned((draw + min) % WORD);
    }
  }

  // Adding min in 32-bit arithmetic and reading the sum as signed.
  lemma SignedResult(min: s32, max: s32, draw: u32)
    requires min <= max && (Bound(min, max) > 0 ==> draw < Bound(min, max))
    ensures var r := ToSigned((draw + min) % WORD);
      && min <= r <= max && (Bound(min, max) > 0 ==> r == min + draw)
      && (Bound(min, max) == 0 ==> (r - min) % WORD == draw)
    ensures Bound(min, max) == 0 <==> min == -0x8000_0000 && max == 0x7fff_ffff
  {
  }

  function Bound(min: s32, max: s32): u32 {
    (max - min + 1) % WORD
  }

  function ToSigned(n: u32): s32 {
    if n < 0x8000_0000 then n else n - WORD
  }
}
