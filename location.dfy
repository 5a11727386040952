/**
  Fixed-point locations on earth (osmium::Location).

  A location is a pair of signed 32-bit integers, x (longitude) and y
  (latitude), in units of 1/CoordinatePrecision degree. The largest int32
  value marks a coordinate as undefined. Coordinates are never range-checked
  on construction: `Valid()` has to be asked for explicitly.
 */
module Locations {

  /** Number of fixed-point units per degree. */
  const CoordinatePrecision: int := 10000000

  const Int32Min: int := -0x8000_0000
  const Int32Max: int := 0x7FFF_FFFF

  /** The C++ `int32_t`. */
  type int32 = v: int | -0x8000_0000 <= v <= 0x7FFF_FFFF

  /** The C++ `int64_t`. */
  type int64 = v: int | -0x8000_0000_0000_0000 <= v <= 0x7FFF_FFFF_FFFF_FFFF

  /** Sentinel that marks a coordinate as undefined: the largest int32. */
  const InvalidCoordinate: int32 := 0x7FFF_FFFF

  /**
    A location as a value. The C++ setters update a location in place, but no
    alias of a location is ever observed here, so an update in place is the
    same as replacing the value. `x` and `y` are the getters; `WithX` and
    `WithY` are the setters, which give back the updated location so that
    calls can be chained.
   */
  datatype Location = Location(x: int32, y: int32) {

    /**
      `operator bool`: neither coordinate is the sentinel. As the sentinel is
      the largest int32, this means both coordinates lie below it.
     */
    predicate Defined()
      ensures Defined() <==> x < InvalidCoordinate && y < InvalidCoordinate
    {
      x != InvalidCoordinate && y != InvalidCoordinate
    }

    /**
      The range check: -180..180 degrees of longitude, -90..90 of latitude.
      The sentinel lies outside that range, so a valid location is defined.
     */
    predicate Valid()
      ensures Valid() ==> Defined()
    {
      && -180 * CoordinatePrecision <= x <= 180 * CoordinatePrecision
      && -90 * CoordinatePrecision <= y <= 90 * CoordinatePrecision
    }

    /** Setter for x: the new x is `v`, y is untouched. */
    function WithX(v: int32): (r: Location)
      ensures r.x == v && r.y == y
      ensures r.Defined() <==> v != InvalidCoordinate && y != InvalidCoordinate
    {
      this.(x := v)
    }

    /** Setter for y: the new y is `v`, x is untouched. */
    function WithY(v: int32): (r: Location)
      ensures r.y == v && r.x == x
      ensures r.Defined() <==> x != InvalidCoordinate && v != InvalidCoordinate
    {
      this.(y := v)
    }
  }

  /** The default constructor: an undefined location. */
  function Undefined(): (l: Location)
    ensures l.x == InvalidCoordinate && l.y == InvalidCoordinate
    ensures !l.Defined() && !l.Valid()
  {
    Location(InvalidCoordinate, InvalidCoordinate)
  }

  /**
    Conversion of an int64 to int32, as the int64 constructor does it: the
    value is taken modulo 2^32 into the int32 range.
   */
  function Narrow(v: int64): (r: int32)
    ensures (r - v) % 0x1_0000_0000 == 0
    ensures Int32Min <= v <= Int32Max ==> r == v
  {
    var m := v % 0x1_0000_0000;
    if m <= Int32Max then m else m - 0x1_0000_0000
  }

  /** The int64 constructor: each coordinate is narrowed to int32. */
  function FromInt64(x: int64, y: int64): (l: Location)
    ensures (l.x - x) % 0x1_0000_0000 == 0 && (l.y - y) % 0x1_0000_0000 == 0
    ensures Int32Min <= x <= Int32Max && Int32Min <= y <= Int32Max ==> l.x == x && l.y == y
  {
    Location(Narrow(x), Narrow(y))
  }

  /** `operator==`: both coordinates are equal. */
  function Equal(a: Location, b: Location): (r: bool)
    ensures r <==> a == b
  {
    a.x == b.x && a.y == b.y
  }

  /**
    An independent reading of the order: a location maps to one integer,
    x in the high 32 bits and y (shifted to be non-negative) in the low 32.
   */
  function Key(l: Location): (k: int)
    ensures -0x8000_0000_0000_0000 <= k <= 0x7FFF_FFFF_FFFF_FFFF
  {
    l.x * 0x1_0000_0000 + (l.y - Int32Min)
  }

  /** Distinct locations have distinct keys. */
  lemma KeyInjective(a: Location, b: Location)
    ensures Key(a) == Key(b) <==> a == b
  {
    if a.x < b.x {
      assert Key(a) < (a.x + 1) * 0x1_0000_0000 <= Key(b);
    } else if b.x < a.x {
      assert Key(b) < (b.x + 1) * 0x1_0000_0000 <= Key(a);
    }
  }

  /**
    `operator<`: compares x first, then y. This is the order of the keys,
    that is lexicographic order on (x, y).
   */
  function Less(a: Location, b: Location): (r: bool)
    ensures r <==> Key(a) < Key(b)
  {
    (a.x == b.x && a.y < b.y) || a.x < b.x
  }

  // The remaining comparisons are derived from `<` and `==` the way
  // boost::totally_ordered derives them.

  /** `operator>`: b < a. */
  function Greater(a: Location, b: Location): (r: bool)
    ensures r <==> Key(b) < Key(a)
  {
    Less(b, a)
  }

  /** `operator<=`: not b < a, which is a < b or a == b. */
  function LessEq(a: Location, b: Location): (r: bool)
    ensures r <==> Less(a, b) || a == b
  {
    KeyInjective(a, b);
    !Less(b, a)
  }

  /** `operator>=`: not a < b, which is b < a or a == b. */
  function GreaterEq(a: Location, b: Location): (r: bool)
    ensures r <==> Less(b, a) || a == b
  {
    KeyInjective(a, b);
    !Less(a, b)
  }

  /** `operator!=`: not a == b. */
  function NotEqual(a: Location, b: Location): (r: bool)
    ensures r <==> a != b
  {
    !Equal(a, b)
  }

  lemma LessIrreflexive(a: Location)
    ensures !Less(a, a)
  {
  }

  lemma LessTransitive(a: Location, b: Location, c: Location)
    requires Less(a, b) && Less(b, c)
    ensures Less(a, c)
  {
  }

  /** For any two locations exactly one of a < b, a == b, b < a holds. */
  lemma LessTrichotomy(a: Location, b: Location)
    ensures Less(a, b) || Equal(a, b) || Less(b, a)
    ensures !(Less(a, b) && Equal(a, b))
    ensures !(Less(b, a) && Equal(a, b))
    ensures !(Less(a, b) && Less(b, a))
  {
    KeyInjective(a, b);
  }

  /** `<=` is total: of any two locations one is at most the other. */
  lemma LessEqTotal(a: Location, b: Location)
    ensures LessEq(a, b) || LessEq(b, a)
  {
    LessTrichotomy(a, b);
  }
}
