// The sweep of a moving box against a static one (src/collision.cpp:91-193), in real arithmetic.

module Sweeps {
  // The extent of a box along one axis.
  datatype Span = Span(lo: real, hi: real)

  function Max(a: real, b: real): real {
    if a > b then a else b
  }

  function Min(a: real, b: real): real {
    if a < b then a else b
  }

  function Abs(a: real): real {
    if a < 0.0 then -a else a
  }

  function Size(s: Span): real {
    s.hi - s.lo
  }

  // The outer extent of both spans less the sum of their sizes, as the source computes it.
  function Distance(m: Span, s: Span): real {
    Max(m.hi, s.hi) - Min(m.lo, s.lo) - (Size(m) + Size(s))
  }

  // More than touching.
  predicate Overlap(m: Span, s: Span) {
    m.lo < m.hi && s.lo < s.hi && m.lo < s.hi && s.lo < m.hi
  }

  // It is negative exactly for spans that overlap, and else the gap between them.
  lemma DistanceIsGap(m: Span, s: Span)
    ensures Distance(m, s) < 0.0 <==> Overlap(m, s)
    ensures m.lo <= m.hi <= s.lo <= s.hi ==> Distance(m, s) == s.lo - m.hi
    ensures s.lo <= s.hi <= m.lo <= m.hi ==> Distance(m, s) == m.lo - s.hi
  {
    assert Distance(m, s) == Max(m.lo, s.lo) - Min(m.hi, s.hi);
  }

  function Times(v: real, t: real): real {
    v * t
  }

  function Shift(m: Span, v: real, t: real): Span {
    Span(m.lo + Times(v, t), m.hi + Times(v, t))
  }

  // When the faces would meet, were this the only axis.
  function Entry(m: Span, s: Span, v: real): real
    requires v != 0.0
  {
    Distance(m, s) / Abs(v)
  }

  lemma EntryTimes(m: Span, s: Span, v: real)
    requires v != 0.0
    ensures Times(v, Entry(m, s, v)) == if v > 0.0 then Distance(m, s) else -Distance(m, s)
    ensures Entry(m, s, v) >= 0.0 <==> Distance(m, s) >= 0.0
  {
  }

  lemma TimesGrows(v: real, t: real, u: real)
    requires t < u
    ensures v > 0.0 ==> Times(v, t) < Times(v, u)
    ensures v < 0.0 ==> Times(v, t) > Times(v, u)
    ensures v == 0.0 ==> Times(v, t) == Times(v, u)
  {
    assert Times(v, u) - Times(v, t) == Times(v, u - t);
    TimesSign(v, u - t);
  }

  lemma TimesSign(v: real, t: real)
    requires t > 0.0
    ensures v > 0.0 ==> Times(v, t) > 0.0
    ensures v < 0.0 ==> Times(v, t) < 0.0
    ensures v == 0.0 ==> Times(v, t) == 0.0
  {
  }

  lemma TimesZero(v: real, m: Span)
    ensures Times(v, 0.0) == 0.0 && Shift(m, v, 0.0) == m
  {
  }

  // How far a span may have entered to be pushed out again on this side.
  function InnerMargin(s: Span): real {
    Max(-0.5 * Size(s), -2.0)
  }

  predicate Facing(m: Span, s: Span, v: real) {
    (v > 0.0 && s.lo - m.hi > InnerMargin(s)) || (v < 0.0 && m.lo - s.hi > InnerMargin(s))
  }

  // The face of the moving span that leads touches the face of the static one it moves to.
  predicate Touch(m: Span, s: Span, v: real) {
    (v > 0.0 && m.hi == s.lo) || (v < 0.0 && m.lo == s.hi)
  }

  // A span without size inside another.
  predicate FlatInside(m: Span, s: Span) {
    m.lo == m.hi && s.lo < m.lo < s.hi
  }

  // Spans that face each other with the entry time to come touch then, but for a moving span
  // without size that is inside the static one: its distance counts as none.
  lemma FacingTouches(m: Span, s: Span, v: real)
    requires m.lo <= m.hi && s.lo < s.hi && Facing(m, s, v) && Entry(m, s, v) >= 0.0
    ensures Touch(Shift(m, v, Entry(m, s, v)), s, v) <==> !FlatInside(m, s)
  {
    hide Times, Entry;
    EntryTimes(m, s, v);
    DistanceIsGap(m, s);
    assert Distance(m, s) == Max(m.lo, s.lo) - Min(m.hi, s.hi);
  }

  lemma PointInside()
    ensures var m, s := Span(1.0, 1.0), Span(0.0, 4.0);
      Facing(m, s, 1.0) && Entry(m, s, 1.0) == 0.0 && !Touch(Shift(m, 1.0, 0.0), s, 1.0)
  {
  }

  // Spans that overlap at two times do so in between.
  lemma OverlapBetween(m: Span, s: Span, v: real, t: real, u: real, w: real)
    requires t <= u <= w && Overlap(Shift(m, v, t), s) && Overlap(Shift(m, v, w), s)
    ensures Overlap(Shift(m, v, u), s)
  {
    hide Times;
    if t < u {
      TimesGrows(v, t, u);
    }
    if u < w {
      TimesGrows(v, u, w);
    }
  }

  // Spans that are apart but overlap at a later time face each other, first touch at the entry
  // time, and overlap from then on.
  lemma EntersAt(m: Span, s: Span, v: real, w: real)
    requires w >= 0.0 && Overlap(Shift(m, v, w), s) && !Overlap(m, s)
    ensures v != 0.0 && 0.0 <= Entry(m, s, v) < w && Facing(m, s, v)
  {
    hide Times, Entry;
    TimesZero(v, m);
    if w > 0.0 {
      TimesGrows(v, 0.0, w);
    }
    DistanceIsGap(m, s);
    EntryTimes(m, s, v);
    if Entry(m, s, v) > w {
      TimesGrows(v, w, Entry(m, s, v));
    }
  }

  lemma EnteredAfter(m: Span, s: Span, v: real, w: real, t: real)
    requires w >= 0.0 && Overlap(Shift(m, v, w), s) && !Overlap(m, s) && v != 0.0 && 0.0 <= t <= w
    ensures Overlap(Shift(m, v, t), s) <==> t > Entry(m, s, v)
  {
    hide Times, Entry;
    EntersAt(m, s, v, w);
    TimesZero(v, m);
    DistanceIsGap(m, s);
    EntryTimes(m, s, v);
    if t < w {
      TimesGrows(v, t, w);
    }
    if t > Entry(m, s, v) {
      TimesGrows(v, Entry(m, s, v), t);
    } else if t < Entry(m, s, v) {
      TimesGrows(v, t, Entry(m, s, v));
    }
  }
}

module Collision {
  import opened Sweeps

  datatype Axis = NONE | X | Y | Z
  datatype Box = Box(x: Span, y: Span, z: Span)
  datatype Vector = Vector(x: real, y: real, z: real)

  function On(b: Box, a: Axis): Span
    requires a != NONE
  {
    match a case X => b.x case Y => b.y case Z => b.z
  }

  function Along(v: Vector, a: Axis): real
    requires a != NONE
  {
    match a case X => v.x case Y => v.y case Z => v.z
  }

  predicate Sized(b: Box) {
    b.x.lo < b.x.hi && b.y.lo < b.y.hi && b.z.lo < b.z.hi
  }

  // No side is negative, but some may have no size.
  predicate Ordered(b: Box) {
    b.x.lo <= b.x.hi && b.y.lo <= b.y.hi && b.z.lo <= b.z.hi
  }

  predicate OverlapAt(m: Box, s: Box, v: Vector, a: Axis, t: real)
    requires a != NONE
  {
    Overlap(Shift(On(m, a), Along(v, a), t), On(s, a))
  }

  function EntryOn(m: Box, s: Box, v: Vector, a: Axis): real
    requires a != NONE && Along(v, a) != 0.0
  {
    Entry(On(m, a), On(s, a), Along(v, a))
  }

  // What is reported: on that axis the faces touch at that time, within the step, and on the other
  // two the boxes overlap then; or they overlap already, no deeper than the margin. Along an axis
  // on which it has no size the moving box may be inside the static one instead of touching it.
  ghost predicate Reported(m: Box, s: Box, v: Vector, a: Axis, t: real, dtimeMax: real) {
    && a != NONE && Along(v, a) != 0.0 && t <= dtimeMax && t == EntryOn(m, s, v, a)
      && Facing(On(m, a), On(s, a), Along(v, a))
    && (t >= 0.0 ==> (Touch(Shift(On(m, a), Along(v, a), t), On(s, a), Along(v, a)) <==>
                      !FlatInside(On(m, a), On(s, a))))
    && forall b :: b != NONE && b != a ==> OverlapAt(m, s, v, b, Max(t, 0.0))
  }

  // The boxes are apart, and they overlap at time w of the step.
  ghost predicate Meets(m: Box, s: Box, v: Vector, w: real, dtimeMax: real) {
    && 0.0 <= w <= dtimeMax
    && (forall b :: b != NONE ==> OverlapAt(m, s, v, b, w))
    && (exists b :: b != NONE && !Overlap(On(m, b), On(s, b)))
  }

  // And of all axes a is entered last, with no other at the same time.
  ghost predicate Hits(m: Box, s: Box, v: Vector, a: Axis, w: real, dtimeMax: real) {
    && a != NONE && Along(v, a) != 0.0 && Meets(m, s, v, w, dtimeMax)
    && forall b :: b != NONE && b != a && Along(v, b) != 0.0 ==> EntryOn(m, s, v, b) < EntryOn(m, s, v, a)
  }

  // The test the source makes for one axis.
  predicate Passes(m: Box, s: Box, v: Vector, a: Axis, b: Axis, c: Axis)
    requires a != NONE && b != NONE && c != NONE && Along(v, a) != 0.0
  {
    var time := Max(EntryOn(m, s, v, a), 0.0);
    && Facing(On(m, a), On(s, a), Along(v, a))
    && Distance(Shift(On(m, b), Along(v, b), time), On(s, b)) < 0.0
    && Distance(Shift(On(m, c), Along(v, c), time), On(s, c)) < 0.0
  }

  lemma PassingIsReported(m: Box, s: Box, v: Vector, a: Axis, b: Axis, c: Axis, dtimeMax: real)
    requires Ordered(m) && Sized(s) && {a, b, c} == {X, Y, Z} && Along(v, a) != 0.0
    requires Passes(m, s, v, a, b, c) && EntryOn(m, s, v, a) <= dtimeMax
    ensures Reported(m, s, v, a, EntryOn(m, s, v, a), dtimeMax)
  {
    hide Shift, Entry, Facing, Touch, Distance, Overlap;
    var t := EntryOn(m, s, v, a);
    if t >= 0.0 {
      OrderedOn(m, a);
      SizedOn(s, a);
      FacingTouches(On(m, a), On(s, a), Along(v, a));
    }
    var time := Max(t, 0.0);
    DistanceIsGap(Shift(On(m, b), Along(v, b), time), On(s, b));
    DistanceIsGap(Shift(On(m, c), Along(v, c), time), On(s, c));
    forall d | d != NONE && d != a
      ensures OverlapAt(m, s, v, d, time)
    {
      assert d in {X, Y, Z};
    }
  }

  lemma OrderedOn(b: Box, a: Axis)
    requires Ordered(b) && a != NONE
    ensures On(b, a).lo <= On(b, a).hi
  {
  }

  lemma SizedOn(b: Box, a: Axis)
    requires Sized(b) && a != NONE
    ensures On(b, a).lo < On(b, a).hi
  {
  }

  // The last axis is entered from outside.
  lemma LastIsApart(m: Box, s: Box, v: Vector, a: Axis, w: real, dtimeMax: real)
    requires Hits(m, s, v, a, w, dtimeMax)
    ensures !Overlap(On(m, a), On(s, a)) && 0.0 <= EntryOn(m, s, v, a) < w && Facing(On(m, a), On(s, a), Along(v, a))
  {
    hide Shift, Entry, Facing, Distance, Overlap;
    var b :| b != NONE && !Overlap(On(m, b), On(s, b));
    assert OverlapAt(m, s, v, b, w) && OverlapAt(m, s, v, a, w);
    EntersAt(On(m, b), On(s, b), Along(v, b), w);
    if Overlap(On(m, a), On(s, a)) {
      EntryTimes(On(m, a), On(s, a), Along(v, a));
      DistanceIsGap(On(m, a), On(s, a));
    }
    EntersAt(On(m, a), On(s, a), Along(v, a), w);
  }

  lemma HitsParts(m: Box, s: Box, v: Vector, a: Axis, b: Axis, w: real, dtimeMax: real)
    requires Hits(m, s, v, a, w, dtimeMax) && b != NONE
    ensures a != NONE && Along(v, a) != 0.0 && 0.0 <= w <= dtimeMax && OverlapAt(m, s, v, a, w)
      && OverlapAt(m, s, v, b, w)
    ensures b != a && Along(v, b) != 0.0 ==> EntryOn(m, s, v, b) < EntryOn(m, s, v, a)
  {
  }

  // When the last axis is entered, the boxes overlap on the others.
  lemma OthersOverlap(m: Box, s: Box, v: Vector, a: Axis, b: Axis, w: real, dtimeMax: real)
    requires Hits(m, s, v, a, w, dtimeMax) && b != NONE && b != a
    ensures Along(v, a) != 0.0 && OverlapAt(m, s, v, b, EntryOn(m, s, v, a))
  {
    hide Shift, Entry, Facing, Distance, Overlap, Hits;
    HitsParts(m, s, v, a, b, w, dtimeMax);
    LastIsApart(m, s, v, a, w, dtimeMax);
    var t := EntryOn(m, s, v, a);
    if Overlap(On(m, b), On(s, b)) {
      TimesZero(Along(v, b), On(m, b));
      OverlapBetween(On(m, b), On(s, b), Along(v, b), 0.0, t, w);
    } else {
      EntersAt(On(m, b), On(s, b), Along(v, b), w);
      EnteredAfter(On(m, b), On(s, b), Along(v, b), w, t);
    }
  }

  // An axis whose test succeeds is entered strictly after the others.
  lemma PassingIsLast(m: Box, s: Box, v: Vector, w: real, dtimeMax: real, b: Axis, c: Axis, d: Axis)
    requires Meets(m, s, v, w, dtimeMax) && {b, c, d} == {X, Y, Z} && Along(v, b) != 0.0 && Passes(m, s, v, b, c, d)
    ensures Hits(m, s, v, b, w, dtimeMax)
  {
    hide Shift, Entry, Facing, Distance, Overlap, Meets;
    MeetsParts(m, s, v, b, w, dtimeMax);
    var time := Max(EntryOn(m, s, v, b), 0.0);
    DistanceIsGap(Shift(On(m, c), Along(v, c), time), On(s, c));
    DistanceIsGap(Shift(On(m, d), Along(v, d), time), On(s, d));
    EntrySign(m, s, v, b);
    SomeApart(m, s, v, w, dtimeMax, b, c, d);
    if !Overlap(On(m, b), On(s, b)) {
      EntersAt(On(m, b), On(s, b), Along(v, b), w);
      forall x | x != NONE && x != b && Along(v, x) != 0.0
        ensures EntryOn(m, s, v, x) < EntryOn(m, s, v, b)
      {
        assert x in {X, Y, Z};
        MeetsParts(m, s, v, x, w, dtimeMax);
        EnteredBefore(m, s, v, x, w, time);
      }
    }
  }

  lemma EntrySign(m: Box, s: Box, v: Vector, b: Axis)
    requires b != NONE && Along(v, b) != 0.0
    ensures EntryOn(m, s, v, b) < 0.0 <==> Overlap(On(m, b), On(s, b))
  {
    hide Distance, Overlap, Entry;
    EntryTimes(On(m, b), On(s, b), Along(v, b));
    DistanceIsGap(On(m, b), On(s, b));
  }

  // The boxes are apart, so not all axes overlap from the start.
  lemma SomeApart(m: Box, s: Box, v: Vector, w: real, dtimeMax: real, b: Axis, c: Axis, d: Axis)
    requires Meets(m, s, v, w, dtimeMax) && {b, c, d} == {X, Y, Z}
    ensures !(Overlap(On(m, b), On(s, b)) && OverlapAt(m, s, v, c, 0.0) && OverlapAt(m, s, v, d, 0.0))
  {
    hide Overlap;
    TimesZero(Along(v, c), On(m, c));
    TimesZero(Along(v, d), On(m, d));
    var x :| x != NONE && !Overlap(On(m, x), On(s, x));
    assert x in {X, Y, Z};
  }

  lemma EnteredBefore(m: Box, s: Box, v: Vector, x: Axis, w: real, time: real)
    requires x != NONE && Along(v, x) != 0.0 && OverlapAt(m, s, v, x, w) && OverlapAt(m, s, v, x, time)
      && 0.0 <= time <= w
    ensures EntryOn(m, s, v, x) < time || EntryOn(m, s, v, x) < 0.0
  {
    hide Shift, Entry, Overlap;
    EntrySign(m, s, v, x);
    if !Overlap(On(m, x), On(s, x)) {
      EnteredAfter(On(m, x), On(s, x), Along(v, x), w, time);
    }
  }

  lemma MeetsParts(m: Box, s: Box, v: Vector, b: Axis, w: real, dtimeMax: real)
    requires Meets(m, s, v, w, dtimeMax) && b != NONE
    ensures 0.0 <= w <= dtimeMax && OverlapAt(m, s, v, b, w)
  {
  }

  // The test succeeds for the axis entered last, if no other is entered at the same time, and for no
  // other axis.
  lemma OnlyLastPasses(m: Box, s: Box, v: Vector, w: real, dtimeMax: real, b: Axis, c: Axis, d: Axis)
    requires Meets(m, s, v, w, dtimeMax) && {b, c, d} == {X, Y, Z} && Along(v, b) != 0.0
    ensures EntryOn(m, s, v, b) <= dtimeMax && (Passes(m, s, v, b, c, d) <==> Hits(m, s, v, b, w, dtimeMax))
  {
    hide Shift, Entry, Facing, Distance, Overlap, Hits, Meets, Passes;
    MeetsParts(m, s, v, b, w, dtimeMax);
    EntrySign(m, s, v, b);
    if !Overlap(On(m, b), On(s, b)) {
      EntersAt(On(m, b), On(s, b), Along(v, b), w);
    }
    if Hits(m, s, v, b, w, dtimeMax) {
      LastPasses(m, s, v, b, w, dtimeMax, c, d);
    }
    if Passes(m, s, v, b, c, d) {
      PassingIsLast(m, s, v, w, dtimeMax, b, c, d);
    }
  }

  lemma LastPasses(m: Box, s: Box, v: Vector, a: Axis, w: real, dtimeMax: real, c: Axis, d: Axis)
    requires Hits(m, s, v, a, w, dtimeMax) && {a, c, d} == {X, Y, Z}
    ensures Along(v, a) != 0.0 && Passes(m, s, v, a, c, d)
  {
    hide Shift, Entry, Facing, Distance, Overlap, Hits;
    HitsParts(m, s, v, a, a, w, dtimeMax);
    var time := Max(EntryOn(m, s, v, a), 0.0);
    DistanceIsGap(Shift(On(m, c), Along(v, c), time), On(s, c));
    DistanceIsGap(Shift(On(m, d), Along(v, d), time), On(s, d));
    LastIsApart(m, s, v, a, w, dtimeMax);
    OthersOverlap(m, s, v, a, c, w, dtimeMax);
    OthersOverlap(m, s, v, a, d, w, dtimeMax);
  }

  // The boxes overlap already.
  predicate Overlapping(m: Box, s: Box) {
    Overlap(m.x, s.x) && Overlap(m.y, s.y) && Overlap(m.z, s.z)
  }

  // The moving span has entered the static one, from the side it comes from, by less than half its size
  // and by less than 2.
  predicate Shallow(m: Span, s: Span, v: real) {
    var depth := if v > 0.0 then m.hi - s.lo else s.hi - m.lo;
    v != 0.0 && 2.0 * depth < s.hi - s.lo && depth < 2.0
  }

  // Of boxes that overlap the test succeeds for the axes on which they do so no deeper.
  lemma OverlappingPasses(m: Box, s: Box, v: Vector, a: Axis, b: Axis, c: Axis)
    requires Overlapping(m, s) && {a, b, c} == {X, Y, Z} && Along(v, a) != 0.0
    ensures EntryOn(m, s, v, a) < 0.0
    ensures Passes(m, s, v, a, b, c) <==> Shallow(On(m, a), On(s, a), Along(v, a))
  {
    hide Entry, Distance;
    EntrySign(m, s, v, a);
    TimesZero(Along(v, b), On(m, b));
    TimesZero(Along(v, c), On(m, c));
    DistanceIsGap(On(m, b), On(s, b));
    DistanceIsGap(On(m, c), On(s, c));
  }

  // The part of the source for one axis, which it repeats: nothing without speed along it, an end
  // of the search if the faces meet after the step.
  method TestAxis(staticBox: Box, movingBox: Box, speed: Vector, a: Axis, b: Axis, c: Axis, dtime0: real,
                  dtimeMax: real)
    returns (axis: Axis, dtime: real, done: bool)
    requires a != NONE && b != NONE && c != NONE
    ensures Along(speed, a) == 0.0 ==> axis == NONE && dtime == dtime0 && !done
    ensures Along(speed, a) != 0.0 ==>
      && dtime == EntryOn(movingBox, staticBox, speed, a)
      && (done <==> dtime > dtimeMax || Passes(movingBox, staticBox, speed, a, b, c))
      && axis == if dtime <= dtimeMax && done then a else NONE
  {
    axis, dtime, done := NONE, dtime0, false;
    var m, s, v := On(movingBox, a), On(staticBox, a), Along(speed, a);
    if v != 0.0 {
      var relMin, relMax := Size(m) + Size(s), Max(m.hi, s.hi) - Min(m.lo, s.lo);
      var distance := relMax - relMin;
      dtime := distance / Abs(v);
      var time := Max(dtime, 0.0);
      if dtime <= dtimeMax {
        var innerMargin := Max(-0.5 * (s.hi - s.lo), -2.0);
        if (v > 0.0 && s.lo - m.hi > innerMargin) || (v < 0.0 && m.lo - s.hi > innerMargin) {
          if Distance(Shift(On(movingBox, b), Along(speed, b), time), On(staticBox, b)) < 0.0
            && Distance(Shift(On(movingBox, c), Along(speed, c), time), On(staticBox, c)) < 0.0
          {
            return a, dtime, true;
          }
        }
      } else {
        done := true;
      }
    }
  }

  // A reported axis is where the boxes touch first. Boxes that are apart and come to overlap within
  // the step are reported exactly if one axis is entered strictly last, with that axis and time; an
  // approach over an edge or a corner is not.
  method AxisAlignedCollision(staticBox: Box, movingBox: Box, speed: Vector, dtimeMax: real) returns (axis: Axis,
                                                                                                      dtime: real)
    requires Sized(staticBox) && Ordered(movingBox)
    ensures axis != NONE ==> Reported(movingBox, staticBox, speed, axis, dtime, dtimeMax)
    ensures forall w :: Meets(movingBox, staticBox, speed, w, dtimeMax) ==>
      (axis != NONE <==> exists a :: Hits(movingBox, staticBox, speed, a, w, dtimeMax))
    ensures forall a, w :: Hits(movingBox, staticBox, speed, a, w, dtimeMax) ==>
      axis == a && dtime == EntryOn(movingBox, staticBox, speed, a)
    // Boxes that overlap already are reported on the first axis, in this order, on which they do so by
    // no more than the margin.
    ensures Overlapping(movingBox, staticBox) && dtimeMax >= 0.0 ==>
      axis == if Shallow(movingBox.y, staticBox.y, speed.y) then Y
              else if Shallow(movingBox.x, staticBox.x, speed.x) then X
              else if Shallow(movingBox.z, staticBox.z, speed.z) then Z else NONE
  {
    hide Reported, Hits, Meets, Passes, Entry, Overlapping, Overlap;
    forall a, w | Hits(movingBox, staticBox, speed, a, w, dtimeMax)
      ensures Expected(movingBox, staticBox, speed, a, dtimeMax)
    {
      LastIsExpected(movingBox, staticBox, speed, a, w, dtimeMax);
    }
    forall w | Meets(movingBox, staticBox, speed, w, dtimeMax)
      ensures (exists a :: Hits(movingBox, staticBox, speed, a, w, dtimeMax))
        || NoneExpected(movingBox, staticBox, speed, dtimeMax)
    {
      NoLastPasses(movingBox, staticBox, speed, w, dtimeMax);
    }
    if Overlapping(movingBox, staticBox) {
      if speed.y != 0.0 {
        OverlappingPasses(movingBox, staticBox, speed, Y, X, Z);
      }
      if speed.x != 0.0 {
        OverlappingPasses(movingBox, staticBox, speed, X, Y, Z);
      }
      if speed.z != 0.0 {
        OverlappingPasses(movingBox, staticBox, speed, Z, X, Y);
      }
    }
    dtime := dtimeMax;
    var done;
    axis, dtime, done := TestAxis(staticBox, movingBox, speed, Y, X, Z, dtime, dtimeMax);
    if !done {
      axis, dtime, done := TestAxis(staticBox, movingBox, speed, X, Y, Z, dtime, dtimeMax);
      if !done {
        axis, dtime, done := TestAxis(staticBox, movingBox, speed, Z, X, Y, dtime, dtimeMax);
        if axis == Z {
          PassingIsReported(movingBox, staticBox, speed, Z, X, Y, dtimeMax);
        }
      } else if axis == X {
        PassingIsReported(movingBox, staticBox, speed, X, Y, Z, dtimeMax);
      }
    } else if axis == Y {
      PassingIsReported(movingBox, staticBox, speed, Y, X, Z, dtimeMax);
    }
  }

  // The tests of the three axes single out a.
  ghost predicate Expected(m: Box, s: Box, v: Vector, a: Axis, dtimeMax: real) {
    && a != NONE && Along(v, a) != 0.0
    && (v.y != 0.0 ==> EntryOn(m, s, v, Y) <= dtimeMax && (Passes(m, s, v, Y, X, Z) <==> a == Y))
    && (v.x != 0.0 ==> EntryOn(m, s, v, X) <= dtimeMax && (Passes(m, s, v, X, Y, Z) <==> a == X))
    && (v.z != 0.0 ==> EntryOn(m, s, v, Z) <= dtimeMax && (Passes(m, s, v, Z, X, Y) <==> a == Z))
  }

  lemma LastIsExpected(m: Box, s: Box, v: Vector, a: Axis, w: real, dtimeMax: real)
    requires Hits(m, s, v, a, w, dtimeMax)
    ensures Expected(m, s, v, a, dtimeMax)
  {
    hide Passes, Entry, Meets;
    if v.y != 0.0 {
      OnlyLastPasses(m, s, v, w, dtimeMax, Y, X, Z);
    }
    if v.x != 0.0 {
      OnlyLastPasses(m, s, v, w, dtimeMax, X, Y, Z);
    }
    if v.z != 0.0 {
      OnlyLastPasses(m, s, v, w, dtimeMax, Z, X, Y);
    }
  }

  // No test succeeds.
  ghost predicate NoneExpected(m: Box, s: Box, v: Vector, dtimeMax: real) {
    && (v.y != 0.0 ==> !Passes(m, s, v, Y, X, Z))
    && (v.x != 0.0 ==> !Passes(m, s, v, X, Y, Z))
    && (v.z != 0.0 ==> !Passes(m, s, v, Z, X, Y))
  }

  lemma NoLastPasses(m: Box, s: Box, v: Vector, w: real, dtimeMax: real)
    requires Meets(m, s, v, w, dtimeMax)
    ensures (exists a :: Hits(m, s, v, a, w, dtimeMax)) || NoneExpected(m, s, v, dtimeMax)
  {
    hide Passes, Entry, Meets, Hits;
    if v.y != 0.0 {
      OnlyLastPasses(m, s, v, w, dtimeMax, Y, X, Z);
    }
    if v.x != 0.0 {
      OnlyLastPasses(m, s, v, w, dtimeMax, X, Y, Z);
    }
    if v.z != 0.0 {
      OnlyLastPasses(m, s, v, w, dtimeMax, Z, X, Y);
    }
  }

  // ---- an approach that is missed

  const CUBE := Box(Span(0.0, 1.0), Span(0.0, 1.0), Span(0.0, 1.0))
  const BESIDE := Box(Span(-2.0, -1.0), Span(-2.0, -1.0), Span(0.0, 1.0))
  const DIAGONAL := Vector(1.0, 1.0, 0.0)

  // A cube that comes along the diagonal enters another by its edge: it is inside after 1.5, but
  // both axes are entered at the same time, and the test succeeds for neither.
  lemma EdgeMissed()
    ensures Meets(BESIDE, CUBE, DIAGONAL, 1.5, 2.0) && NoneExpected(BESIDE, CUBE, DIAGONAL, 2.0)
    ensures forall a, w, dtimeMax :: !Hits(BESIDE, CUBE, DIAGONAL, a, w, dtimeMax)
  {
    hide Passes, Entry, Hits;
    EdgeMet();
    forall a, w, dtimeMax
      ensures !Hits(BESIDE, CUBE, DIAGONAL, a, w, dtimeMax)
    {
      EnteredTogether(BESIDE, CUBE, DIAGONAL, a, w, dtimeMax);
    }
    NoLastPasses(BESIDE, CUBE, DIAGONAL, 1.5, 2.0);
  }

  // Two axes with the same spans and speeds are entered at the same time, so neither is the last.
  lemma EnteredTogether(m: Box, s: Box, v: Vector, a: Axis, w: real, dtimeMax: real)
    requires m.x == m.y && s.x == s.y && v.x == v.y && v.x != 0.0 && v.z == 0.0
    ensures !Hits(m, s, v, a, w, dtimeMax)
  {
    hide Entry, Meets;
    assert EntryOn(m, s, v, X) == EntryOn(m, s, v, Y);
  }

  lemma EdgeMet()
    ensures Meets(BESIDE, CUBE, DIAGONAL, 1.5, 2.0)
  {
    hide Shift, Overlap;
    SpansMet(Span(-2.0, -1.0), Span(0.0, 1.0), 1.5);
    Separate(On(BESIDE, X), On(CUBE, X));
    assert OverlapAt(BESIDE, CUBE, DIAGONAL, Z, 1.5);
  }

  lemma SpansMet(m: Span, s: Span, t: real)
    requires m.lo < m.hi && s.lo < s.hi && m.lo + t < s.hi && s.lo < m.hi + t
    ensures Overlap(Shift(m, 1.0, t), s) && Overlap(Shift(s, 0.0, t), s)
  {
    TimesOne(t);
    TimesNone(t);
  }

  lemma Separate(m: Span, s: Span)
    requires m.hi <= s.lo
    ensures !Overlap(m, s)
  {
  }

  lemma TimesOne(t: real)
    ensures Times(1.0, t) == t
  {
  }

  lemma TimesNone(t: real)
    ensures Times(0.0, t) == 0.0
  {
  }
}
