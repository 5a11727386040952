# Osmium locations, bounding boxes and file formats, in Dafny

This project models three small value-level components of the Osmium
OpenStreetMap library and proves what they promise.

- **`osmium::Location`** (`location.dfy`, module `Locations`). A place on earth
  is a pair of signed 32-bit integers `x` (longitude) and `y` (latitude). Both
  are in units of 1/10,000,000 degree (`CoordinatePrecision`). The largest
  int32, `InvalidCoordinate`, marks a coordinate as undefined. The default
  constructor gives a location with both coordinates undefined. The int32 pair
  constructor is the datatype constructor `Location(x, y)`. It stores its
  arguments unchecked, because coordinates are never range-checked on
  construction. The int64 pair constructor narrows each argument to int32
  modulo 2^32, which is the conversion C++20 prescribes. The getters are the
  fields `x` and `y`. The setters `WithX`/`WithY` give back the updated value,
  so they can be chained the way the C++ setters return `*this`. `Defined()` is
  `operator bool`. `Valid()` is the range check. `Equal` and `Less` are
  `operator==` and `operator<`. `Greater`, `LessEq`, `GreaterEq` and `NotEqual`
  are derived from those two, as `boost::totally_ordered` derives them.
  `Location` is a datatype because it is a value type. Its C++ setters update
  `m_x`/`m_y` in place, and `Bounds::extend` changes its corners in place
  through them. But no alias of a location is ever observed in this core,
  so an update in place is the same as replacing the value.
- **`osmium::Bounds`** (`bounds.dfy`, module `Boxes`). The class `Bounds`
  keeps two corner fields and updates them in place, as `extend` does. It
  works through four conditional setter calls, or by assigning both corners
  on the first defined location. `Box` is the value of the two corners, and
  `Box.Extend` states one extension with minimum and maximum. The method
  `Bounds.Extend` is proved to produce exactly that value. The ghost field
  `Extents` records every location passed to `extend`. The class invariant
  `Consistent` says the corners are those of an empty box extended by
  `Extents`. `ExtendAllTight` then shows that this is the smallest box around
  the defined locations given.
- **`osmium::io::file_format` and `as_string`** (`file_format.dfy`, module
  `FileFormats`). `Format` holds the five enumerators and `Value` their
  underlying values. A C++ enum class object can hold any value of its
  underlying type, the 32-bit `int`. So `AsString` takes that value and returns the empty
  string for a value that names no enumerator, which is the fallback at the
  end of the switch.

Comparing undefined locations is allowed in the code. The sentinel then takes
part as an ordinary large integer, and the model does the same. The code's
`valid()` does not test for the sentinel. It does not need to, because the
sentinel lies outside the valid range (the contract of `Location.Valid`).

## Model

| member | source | states |
|---|---|---|
| `Locations.Undefined` | include/osmium/osm/location.hpp:78-87 | the default location has both coordinates equal to the sentinel, is not defined and is not valid |
| `Locations.Location.Defined` | include/osmium/osm/location.hpp:104-106 | `operator bool` is the sentinel test: a location is defined iff neither coordinate is INT32_MAX, that is iff both lie below the largest int32 |
| `Locations.Location.Valid` | include/osmium/osm/location.hpp:108-113 | `valid()` is the range check -180..180 / -90..90 degrees in fixed point; a valid location is defined, since the sentinel is out of that range |
| `Locations.Location.WithX` | include/osmium/osm/location.hpp:123-126 | the x setter sets x to the given value and leaves y unchanged; the result is defined iff neither the new x nor the old y is the sentinel |
| `Locations.Location.WithY` | include/osmium/osm/location.hpp:128-131 | the y setter sets y to the given value and leaves x unchanged; the result is defined iff neither the old x nor the new y is the sentinel |
| `Locations.Narrow` | include/osmium/osm/location.hpp:94-97 | narrowing an int64 gives the int32 congruent to it modulo 2^32, and the value itself when it fits in int32 |
| `Locations.FromInt64` | include/osmium/osm/location.hpp:94-97 | the int64 constructor stores each coordinate modulo 2^32, and exactly the arguments when both fit in int32 |
| `Locations.Equal` | include/osmium/osm/location.hpp:153-158 | two locations are equal iff both coordinates are equal, which is the same as equality of the values |
| `Locations.Less` | include/osmium/osm/location.hpp:160-167 | `<` compares x first, then y, and agrees with the order of the 64-bit key x·2^32 + (y + 2^31), which is lexicographic order on (x, y) |
| `Locations.KeyInjective` | include/osmium/osm/location.hpp:156-167 | distinct locations have distinct keys, so the key order is as fine as `==` |
| `Locations.LessIrreflexive` | include/osmium/osm/location.hpp:165-167 | no location is less than itself |
| `Locations.LessTransitive` | include/osmium/osm/location.hpp:165-167 | `<` is transitive |
| `Locations.LessTrichotomy` | include/osmium/osm/location.hpp:156-167 | for any two locations exactly one of a < b, a == b, b < a holds |
| `Locations.Greater` | include/osmium/osm/location.hpp:71 | `>`, derived as b < a, is the reverse key order |
| `Locations.LessEq` | include/osmium/osm/location.hpp:71 | `<=`, derived as not b < a, means a < b or a == b |
| `Locations.GreaterEq` | include/osmium/osm/location.hpp:71 | `>=`, derived as not a < b, means b < a or a == b |
| `Locations.NotEqual` | include/osmium/osm/location.hpp:71 | `!=`, derived as not a == b, means the locations differ |
| `Locations.LessEqTotal` | include/osmium/osm/location.hpp:71 | of any two locations one is `<=` the other |
| `Boxes.Box.Defined` | include/osmium/osm/bounds.hpp:80-82 | `operator bool` asks only the bottom-left corner; in a well-formed box that is the same as asking the top-right corner |
| `Boxes.Box.Valid` | include/osmium/osm/bounds.hpp:84-86 | a box is valid iff both corners are; a valid box is defined, and a well-formed box is valid iff it is defined and lies within -180..180 / -90..90 degrees |
| `Boxes.Box.Extend` | include/osmium/osm/bounds.hpp:57-78 | extending gives a defined box iff the box or the location was defined, and the result contains a defined location it was extended by |
| `Boxes.Empty` | include/osmium/osm/bounds.hpp:48-51 | a new box has both corners undefined, is well formed, is not defined and is not valid |
| `Boxes.ExtendUndefined` | include/osmium/osm/bounds.hpp:53-58 | extending by an undefined location leaves both corners unchanged |
| `Boxes.ExtendEmpty` | include/osmium/osm/bounds.hpp:72-75 | extending an empty box by a defined location sets both corners to that location |
| `Boxes.ExtendGrows` | include/osmium/osm/bounds.hpp:59-75 | extending keeps corners defined together with bottom-left ≤ top-right per axis, makes the box contain a defined location, and never shrinks the box |
| `Boxes.ExtendInside` | include/osmium/osm/bounds.hpp:60-71 | a location already inside a defined box changes nothing |
| `Boxes.ExtendIdempotent` | include/osmium/osm/bounds.hpp:57-78 | for every box, extending twice by the same location is the same as extending once |
| `Boxes.ExtendCommutes` | include/osmium/osm/bounds.hpp:60-71 | because each axis is updated on its own, for every box the order in which two locations are added does not matter |
| `Boxes.ExtendAllTight` | include/osmium/osm/bounds.hpp:57-78 | extending an empty box by a sequence gives the smallest box around its defined locations: it is empty iff there are none, it contains every one, and each edge is reached by one of them |
| `Boxes.TightUnique` | include/osmium/osm/bounds.hpp:57-78 | at most one box is the smallest around a given sequence of locations |
| `Boxes.ExtendAllSameElements` | include/osmium/osm/bounds.hpp:57-78 | the box depends only on which locations were given, not on their order or repetitions |
| `Boxes.ExtendAllValid` | include/osmium/osm/bounds.hpp:84-86 | the accumulated box is valid iff some defined location was given and every defined location given is valid |
| `Boxes.Bounds.constructor` | include/osmium/osm/bounds.hpp:48-51 | a new Bounds has both corners undefined, has seen no location and is not defined |
| `Boxes.Bounds.Extend` | include/osmium/osm/bounds.hpp:57-78 | the four conditional setter updates (or the whole-corner assignment) leave exactly the corners of `Box.Extend`, and keep the class invariant |
| `Boxes.Bounds.Defined` | include/osmium/osm/bounds.hpp:80-82 | a Bounds is defined iff some defined location has been added |
| `Boxes.Bounds.Valid` | include/osmium/osm/bounds.hpp:84-86 | a Bounds is valid iff some defined location was added and all defined locations added are valid |
| `Boxes.Bounds.BottomLeft` | include/osmium/osm/bounds.hpp:91-93 | the bottom-left corner is undefined while no defined location was added; otherwise its x and y are the least x and the least y of the defined locations added |
| `Boxes.Bounds.TopRight` | include/osmium/osm/bounds.hpp:98-100 | the top-right corner is undefined while no defined location was added; otherwise its x and y are the greatest x and the greatest y of the defined locations added |
| `FileFormats.Value` | include/osmium/io/file_format.hpp:42-48 | every enumerator has an underlying value (a 32-bit int) in 0..4, and only `unknown` has 0 |
| `FileFormats.FromValue` | include/osmium/io/file_format.hpp:42-48 | an int names an enumerator iff it lies in 0..4 |
| `FileFormats.FromValueOfValue` | include/osmium/io/file_format.hpp:42-48 | each enumerator is recovered from its underlying value |
| `FileFormats.ValueOfFromValue` | include/osmium/io/file_format.hpp:42-48 | each value in 0..4 is the underlying value of the enumerator it names |
| `FileFormats.ValueInjective` | include/osmium/io/file_format.hpp:42-48 | the enumerators carry distinct underlying values |
| `FileFormats.AsString` | include/osmium/io/file_format.hpp:50-64 | `as_string` returns the empty string exactly for a value that names no enumerator |
| `FileFormats.AsStringNames` | include/osmium/io/file_format.hpp:42-61 | the values 0..4, which are those of unknown, xml, pbf, opl and json, are named "unknown", "XML", "PBF", "OPL" and "JSON" |
| `FileFormats.AsStringInjective` | include/osmium/io/file_format.hpp:50-64 | every enumerator has a non-empty name and distinct enumerators have distinct names, so the empty fallback is unreachable for them |

## Left out

- The conversions between degrees and fixed point (`double_to_fix`, `fix_to_double`), the `lon()`/`lat()` getters and setters, and the `Location(double, double)` constructor. They rest on floating-point multiplication, division and `round`.
- `Locations.Narrow`: before C++20 the int64-to-int32 conversion of out-of-range values is implementation-defined. The model takes the modulo-2^32 conversion that C++20 prescribes and that common compilers perform.
- The return values of the setters and of `Bounds::extend` (a reference to the object, for chaining). The datatype setters return the updated value instead. The `Bounds.Extend` method returns nothing.
- `operator<<` for file formats. It writes `as_string` to an output stream, which is I/O.
- src/handler.hpp (the node.js event handler with its before/after hooks). That file only declares the binding to the V8 JavaScript runtime and shows no implementation. So there is no dispatch or ordering logic to model, and the dispatch protocol is not part of this model.
