/** The parts of a designspace document the merger reads and rewrites. */
module Designspace {
  import opened Common

  /** A position in design space: axis name to coordinate. */
  type Location = map<string, real>

  /** An axis descriptor: name, four-letter tag, range and default. */
  datatype Axis = Axis(name: string, tag: string, minimum: real, maximum: real, default: real)

  /** A master source: the UFO it points to, its display names and its location.
      The name attributes are optional, as on a descriptor read from XML. */
  datatype Source = Source(
    filename: string,
    name: Option<string>,
    familyName: Option<string>,
    styleName: Option<string>,
    location: Location)

  /** A named instance; an instance read without a location has the empty map. */
  datatype Instance = Instance(name: Option<string>, styleName: Option<string>, location: Location)

  datatype Doc = Doc(axes: seq<Axis>, sources: seq<Source>, instances: seq<Instance>)

  /** The names of the axes a document declares. */
  function AxisNames(axes: seq<Axis>): set<string> {
    set i | 0 <= i < |axes| :: axes[i].name
  }

  /** The names declared by two axis lists put together. */
  lemma AxisNamesAppend(x: seq<Axis>, y: seq<Axis>)
    ensures AxisNames(x + y) == AxisNames(x) + AxisNames(y)
  {
    var xy := x + y;
    forall a | a in AxisNames(x) ensures a in AxisNames(xy) {
      var i :| 0 <= i < |x| && x[i].name == a;
      assert xy[i] == x[i];
    }
    forall a | a in AxisNames(y) ensures a in AxisNames(xy) {
      var i :| 0 <= i < |y| && y[i].name == a;
      assert xy[|x| + i] == y[i];
    }
    forall a | a in AxisNames(xy) ensures a in AxisNames(x) + AxisNames(y) {
      var i :| 0 <= i < |xy| && xy[i].name == a;
      if i >= |x| {
        assert y[i - |x|] == xy[i];
      }
    }
  }

  /** No two axes share a name. */
  predicate DistinctNames(axes: seq<Axis>) {
    forall i, j :: 0 <= i < j < |axes| ==> axes[i].name != axes[j].name
  }

  /** The write loop `for axis in axes: location[axis] = values[axis]`, one
      assignment at a time in list order; a repeated axis is written twice with
      the same value. */
  function Assign(loc: Location, axes: seq<string>, values: map<string, real>): (r: Location)
    requires forall a :: a in axes ==> a in values
    ensures forall a :: a in r <==> a in loc || a in axes
    ensures forall a :: a in axes ==> r[a] == values[a]
    ensures forall a :: a in loc && a !in axes ==> r[a] == loc[a]
    decreases |axes|
  {
    if |axes| == 0 then loc
    else Assign(loc[axes[0] := values[axes[0]]], axes[1..], values)
  }

  /** Writing the same values twice changes nothing more than writing them once. */
  lemma AssignIdempotent(loc: Location, axes: seq<string>, values: map<string, real>)
    requires forall a :: a in axes ==> a in values
    ensures Assign(Assign(loc, axes, values), axes, values) == Assign(loc, axes, values)
  {
    var once := Assign(loc, axes, values);
    var twice := Assign(once, axes, values);
    assert twice.Keys == once.Keys;
  }
}
