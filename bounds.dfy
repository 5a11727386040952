/**
  Bounding boxes (osmium::Bounds).

  A Bounds accumulates locations into the smallest axis-aligned box that
  encloses them, held as two corners, bottom-left and top-right. Undefined
  locations are ignored; the first defined location sets both corners, and
  every later one widens each axis on its own.

  `Box` is the value of the two corners and `Box.Extend` specifies one
  extension; the class `Bounds` updates its corners in place and is proved
  against that specification.
 */
module Boxes {
  import opened Locations

  function Min(a: int32, b: int32): int32 { if a <= b then a else b }

  function Max(a: int32, b: int32): int32 { if a >= b then a else b }

  /** The two corners of a bounding box, as a value. */
  datatype Box = Box(bottomLeft: Location, topRight: Location) {

    /**
      `operator bool`: only the bottom-left corner is asked; in a well-formed
      box that is the same as asking the top-right corner.
     */
    predicate Defined()
      ensures WellFormed() ==> (Defined() <==> topRight.Defined())
    {
      bottomLeft.Defined()
    }

    /**
      `valid()`: both corners are within the range of valid locations. A
      valid box is defined, and a well-formed box is valid exactly when it is
      defined and lies within -180..180 / -90..90 degrees.
     */
    predicate Valid()
      ensures Valid() ==> Defined()
      ensures WellFormed() ==>
                (Valid() <==> && Defined()
                              && -180 * CoordinatePrecision <= bottomLeft.x
                              && topRight.x <= 180 * CoordinatePrecision
                              && -90 * CoordinatePrecision <= bottomLeft.y
                              && topRight.y <= 90 * CoordinatePrecision)
    {
      bottomLeft.Valid() && topRight.Valid()
    }

    /**
      The states a box can reach: empty with both corners undefined, or both
      corners defined with bottom-left at most top-right on each axis.
     */
    predicate WellFormed() {
      if bottomLeft.Defined() then
        && topRight.Defined()
        && bottomLeft.x <= topRight.x
        && bottomLeft.y <= topRight.y
      else
        bottomLeft == Undefined() && topRight == Undefined()
    }

    /** `l` lies within the box (edges included). */
    predicate Contains(l: Location) {
      && bottomLeft.x <= l.x <= topRight.x
      && bottomLeft.y <= l.y <= topRight.y
    }

    /** This box covers `inner` on both axes. */
    predicate Covers(inner: Box) {
      && bottomLeft.x <= inner.bottomLeft.x
      && bottomLeft.y <= inner.bottomLeft.y
      && inner.topRight.x <= topRight.x
      && inner.topRight.y <= topRight.y
    }

    /**
      The box after extending it by `l`: unchanged for an undefined `l`,
      the degenerate box at `l` when empty, otherwise each corner coordinate
      is the minimum (bottom-left) or maximum (top-right) of the old one and
      that of `l`.
     */
    function Extend(l: Location): (r: Box)
      ensures r.Defined() <==> Defined() || l.Defined()
      ensures l.Defined() ==> r.Contains(l)
    {
      if !l.Defined() then this
      else if !bottomLeft.Defined() then Box(l, l)
      else Box(Location(Min(bottomLeft.x, l.x), Min(bottomLeft.y, l.y)),
               Location(Max(topRight.x, l.x), Max(topRight.y, l.y)))
    }
  }

  /** The default constructor: both corners undefined. */
  function Empty(): (b: Box)
    ensures b.bottomLeft == Undefined() && b.topRight == Undefined()
    ensures b.WellFormed() && !b.Defined() && !b.Valid()
  {
    Box(Undefined(), Undefined())
  }

  /** Extending by an undefined location changes nothing. */
  lemma ExtendUndefined(b: Box, l: Location)
    requires !l.Defined()
    ensures b.Extend(l) == b
  {
  }

  /** Extending an empty box by a defined location puts both corners on it. */
  lemma ExtendEmpty(b: Box, l: Location)
    requires !b.Defined() && l.Defined()
    ensures b.Extend(l).bottomLeft == l && b.Extend(l).topRight == l
  {
  }

  /**
    Extending keeps a box well formed, makes it contain the new location,
    and never shrinks it.
   */
  lemma ExtendGrows(b: Box, l: Location)
    requires b.WellFormed()
    ensures b.Extend(l).WellFormed()
    ensures l.Defined() ==> b.Extend(l).Defined() && b.Extend(l).Contains(l)
    ensures b.Defined() ==> b.Extend(l).Defined() && b.Extend(l).Covers(b)
    ensures forall p :: b.Defined() && b.Contains(p) ==> b.Extend(l).Contains(p)
  {
  }

  /** A location already inside the box leaves it unchanged. */
  lemma ExtendInside(b: Box, l: Location)
    requires b.WellFormed() && b.Defined() && b.Contains(l)
    ensures b.Extend(l) == b
  {
  }

  /** Extending twice by the same location is extending once. */
  lemma ExtendIdempotent(b: Box, l: Location)
    ensures b.Extend(l).Extend(l) == b.Extend(l)
  {
  }

  /** The order in which two locations are added does not matter. */
  lemma ExtendCommutes(b: Box, l1: Location, l2: Location)
    ensures b.Extend(l1).Extend(l2) == b.Extend(l2).Extend(l1)
  {
  }

  /** Extending by every location of `ls`, first to last. */
  function ExtendAll(b: Box, ls: seq<Location>): Box
    decreases |ls|
  {
    if ls == [] then b else ExtendAll(b, ls[..|ls| - 1]).Extend(ls[|ls| - 1])
  }

  /** `l` is one of the defined locations of `ls`. */
  predicate DefinedIn(l: Location, ls: seq<Location>) {
    l in ls && l.Defined()
  }

  /**
    `b` is the smallest box around the defined locations of `ls`: empty if
    there are none; otherwise it contains each of them and each of its four
    edges is reached by one of them.
   */
  ghost predicate Tight(b: Box, ls: seq<Location>) {
    && b.WellFormed()
    && (b.Defined() <==> exists l :: DefinedIn(l, ls))
    && (forall l :: DefinedIn(l, ls) ==> b.Contains(l))
    && (b.Defined() ==>
          && (exists l :: DefinedIn(l, ls) && l.x == b.bottomLeft.x)
          && (exists l :: DefinedIn(l, ls) && l.y == b.bottomLeft.y)
          && (exists l :: DefinedIn(l, ls) && l.x == b.topRight.x)
          && (exists l :: DefinedIn(l, ls) && l.y == b.topRight.y))
  }

  lemma TightStep(b: Box, ls: seq<Location>, l: Location)
    requires Tight(b, ls)
    ensures Tight(b.Extend(l), ls + [l])
  {
    var r := b.Extend(l);
    ExtendGrows(b, l);
    forall p | DefinedIn(p, ls + [l]) ensures r.Contains(p) {
      if p != l {
        assert DefinedIn(p, ls);
        assert b.Defined() && b.Contains(p);
      }
    }
    if l.Defined() {
      assert DefinedIn(l, ls + [l]);
      if b.Defined() {
        forall p | DefinedIn(p, ls) ensures DefinedIn(p, ls + [l]) {
        }
        var p1 :| DefinedIn(p1, ls) && p1.x == b.bottomLeft.x;
        var p2 :| DefinedIn(p2, ls) && p2.y == b.bottomLeft.y;
        var p3 :| DefinedIn(p3, ls) && p3.x == b.topRight.x;
        var p4 :| DefinedIn(p4, ls) && p4.y == b.topRight.y;
        assert DefinedIn(p1, ls + [l]) && DefinedIn(p2, ls + [l]);
        assert DefinedIn(p3, ls + [l]) && DefinedIn(p4, ls + [l]);
      }
    } else {
      forall p | DefinedIn(p, ls + [l]) ensures DefinedIn(p, ls) {
      }
      if b.Defined() {
        var p1 :| DefinedIn(p1, ls) && p1.x == b.bottomLeft.x;
        var p2 :| DefinedIn(p2, ls) && p2.y == b.bottomLeft.y;
        var p3 :| DefinedIn(p3, ls) && p3.x == b.topRight.x;
        var p4 :| DefinedIn(p4, ls) && p4.y == b.topRight.y;
        assert DefinedIn(p1, ls + [l]) && DefinedIn(p2, ls + [l]);
        assert DefinedIn(p3, ls + [l]) && DefinedIn(p4, ls + [l]);
      }
    }
  }

  /**
    Extending an empty box by a sequence of locations yields the smallest
    box around its defined locations.
   */
  lemma {:induction false} ExtendAllTight(ls: seq<Location>)
    ensures Tight(ExtendAll(Empty(), ls), ls)
    decreases |ls|
  {
    if ls == [] {
    } else {
      var init := ls[..|ls| - 1];
      ExtendAllTight(init);
      TightStep(ExtendAll(Empty(), init), init, ls[|ls| - 1]);
      assert init + [ls[|ls| - 1]] == ls;
    }
  }

  /** At most one box is the smallest around a given sequence. */
  lemma TightUnique(b1: Box, b2: Box, ls: seq<Location>)
    requires Tight(b1, ls) && Tight(b2, ls)
    ensures b1 == b2
  {
    if b1.Defined() {
      var p1 :| DefinedIn(p1, ls) && p1.x == b1.bottomLeft.x;
      var p2 :| DefinedIn(p2, ls) && p2.y == b1.bottomLeft.y;
      var p3 :| DefinedIn(p3, ls) && p3.x == b1.topRight.x;
      var p4 :| DefinedIn(p4, ls) && p4.y == b1.topRight.y;
      var q1 :| DefinedIn(q1, ls) && q1.x == b2.bottomLeft.x;
      var q2 :| DefinedIn(q2, ls) && q2.y == b2.bottomLeft.y;
      var q3 :| DefinedIn(q3, ls) && q3.x == b2.topRight.x;
      var q4 :| DefinedIn(q4, ls) && q4.y == b2.topRight.y;
      assert b1.Contains(q1) && b1.Contains(q2) && b1.Contains(q3) && b1.Contains(q4);
      assert b2.Contains(p1) && b2.Contains(p2) && b2.Contains(p3) && b2.Contains(p4);
    }
  }

  /**
    The box depends only on which defined locations were given: neither
    their order nor repetitions matter.
   */
  lemma ExtendAllSameElements(ls: seq<Location>, ms: seq<Location>)
    requires forall l :: l in ls <==> l in ms
    ensures ExtendAll(Empty(), ls) == ExtendAll(Empty(), ms)
  {
    ExtendAllTight(ls);
    ExtendAllTight(ms);
    assert forall l :: DefinedIn(l, ls) <==> DefinedIn(l, ms);
    TightUnique(ExtendAll(Empty(), ls), ExtendAll(Empty(), ms), ls);
  }

  /**
    The accumulated box is valid exactly when some defined location was
    given and every defined location given is valid.
   */
  lemma ExtendAllValid(ls: seq<Location>)
    ensures ExtendAll(Empty(), ls).Valid() <==>
              (exists l :: DefinedIn(l, ls)) && (forall l :: DefinedIn(l, ls) ==> l.Valid())
  {
    var b := ExtendAll(Empty(), ls);
    ExtendAllTight(ls);
    if b.Defined() && (forall l :: DefinedIn(l, ls) ==> l.Valid()) {
      var p1 :| DefinedIn(p1, ls) && p1.x == b.bottomLeft.x;
      var p2 :| DefinedIn(p2, ls) && p2.y == b.bottomLeft.y;
      var p3 :| DefinedIn(p3, ls) && p3.x == b.topRight.x;
      var p4 :| DefinedIn(p4, ls) && p4.y == b.topRight.y;
      assert p1.Valid() && p2.Valid() && p3.Valid() && p4.Valid();
    }
  }

  /**
    The in-place accumulator. `Extents` records, for the proof only, every
    location passed to `Extend` so far.
   */
  class Bounds {
    var bottomLeft: Location
    var topRight: Location
    ghost var Extents: seq<Location>

    /** The two corners as a value. */
    function Value(): Box
      reads this
    {
      Box(bottomLeft, topRight)
    }

    /** The corners are those of extending an empty box by `Extents`. */
    ghost predicate Consistent()
      reads this
    {
      Value() == ExtendAll(Empty(), Extents)
    }

    /** The default constructor: both corners undefined. */
    constructor ()
      ensures Consistent() && Extents == []
      ensures bottomLeft == Undefined() && topRight == Undefined()
      ensures !Defined()
    {
      bottomLeft := Undefined();
      topRight := Undefined();
      Extents := [];
    }

    /**
      `extend`: ignores an undefined location, sets both corners on the
      first defined one, and otherwise moves each corner coordinate that the
      location lies beyond.
     */
    method Extend(location: Location)
      requires Consistent()
      modifies this
      ensures Consistent() && Extents == old(Extents) + [location]
      ensures Value() == old(Value()).Extend(location)
    {
      if location.Defined() {
        if bottomLeft.Defined() {
          if location.x < bottomLeft.x {
            bottomLeft := bottomLeft.WithX(location.x);
          }
          if location.x > topRight.x {
            topRight := topRight.WithX(location.x);
          }
          if location.y < bottomLeft.y {
            bottomLeft := bottomLeft.WithY(location.y);
          }
          if location.y > topRight.y {
            topRight := topRight.WithY(location.y);
          }
        } else {
          bottomLeft := location;
          topRight := location;
        }
      }
      Extents := Extents + [location];
      assert Extents[..|Extents| - 1] == old(Extents);
    }

    /** `operator bool`: true once a defined location has been added. */
    function Defined(): (r: bool)
      reads this
      requires Consistent()
      ensures r <==> exists l :: DefinedIn(l, Extents)
    {
      ExtendAllTight(Extents);
      bottomLeft.Defined()
    }

    /** `valid()`: both corners are valid locations. */
    function Valid(): (r: bool)
      reads this
      requires Consistent()
      ensures r <==> (exists l :: DefinedIn(l, Extents)) && forall l :: DefinedIn(l, Extents) ==> l.Valid()
    {
      ExtendAllValid(Extents);
      bottomLeft.Valid() && topRight.Valid()
    }

    /**
      `bottom_left()`: the lower-left corner, returned by value. It is
      undefined while no defined location has been added; otherwise each of
      its coordinates is the least of the locations added.
     */
    function BottomLeft(): (l: Location)
      reads this
      requires Consistent()
      ensures forall p :: DefinedIn(p, Extents) ==> l.x <= p.x && l.y <= p.y
      ensures (exists p :: DefinedIn(p, Extents)) ==>
                && (exists p :: DefinedIn(p, Extents) && p.x == l.x)
                && (exists p :: DefinedIn(p, Extents) && p.y == l.y)
      ensures !(exists p :: DefinedIn(p, Extents)) ==> l == Undefined()
    {
      ExtendAllTight(Extents);
      bottomLeft
    }

    /**
      `top_right()`: the upper-right corner, returned by value. It is
      undefined while no defined location has been added; otherwise each of
      its coordinates is the greatest of the locations added.
     */
    function TopRight(): (l: Location)
      reads this
      requires Consistent()
      ensures forall p :: DefinedIn(p, Extents) ==> p.x <= l.x && p.y <= l.y
      ensures (exists p :: DefinedIn(p, Extents)) ==>
                && (exists p :: DefinedIn(p, Extents) && p.x == l.x)
                && (exists p :: DefinedIn(p, Extents) && p.y == l.y)
      ensures !(exists p :: DefinedIn(p, Extents)) ==> l == Undefined()
    {
      ExtendAllTight(Extents);
      topRight
    }
  }
}
