/** Step 4 of the merger (`update_instances_with_e_axes`): give every instance a
    coordinate on every extension axis, from the CSV when its style name is
    there and the axis has a value, otherwise the middle of the axis's range. */
module InstancePlacement {
  import opened Common
  import opened Mapping
  import opened Designspace

  function Midpoint(b: Bounds): real {
    (b.min + b.max) / 2.0
  }

  /** The style name is set, non-empty and a key of the lookup (exact match, no stripping). */
  predicate Matches(style: Option<string>, lookup: map<string, map<string, real>>) {
    style.Some? && style.value != "" && style.value in lookup
  }

  /** The coordinate the script picks for one instance on one extension axis. */
  function AxisValue(style: Option<string>, axis: string, b: Bounds, lookup: map<string, map<string, real>>): real {
    if Matches(style, lookup) && axis in lookup[style.value] then lookup[style.value][axis]
    else Midpoint(b)
  }

  function Placement(style: Option<string>, bounds: map<string, Bounds>, lookup: map<string, map<string, real>>): map<string, real> {
    map a | a in bounds :: AxisValue(style, a, bounds[a], lookup)
  }

  /** One instance after the step: every extension axis has a coordinate, the
      CSV value when the style name matches and the row has the axis, the
      midpoint otherwise; the other coordinates and the names are unchanged. */
  function PlaceInstance(inst: Instance, eAxes: seq<string>, bounds: map<string, Bounds>, lookup: map<string, map<string, real>>): (r: Instance)
    requires Covers(eAxes, bounds)
    ensures r.name == inst.name && r.styleName == inst.styleName
    ensures forall a :: a in r.location <==> a in inst.location || a in eAxes
    ensures forall a :: a in inst.location && a !in eAxes ==> r.location[a] == inst.location[a]
    ensures forall a :: a in eAxes && Matches(inst.styleName, lookup) && a in lookup[inst.styleName.value] ==>
      r.location[a] == lookup[inst.styleName.value][a]
    ensures forall a :: a in eAxes && !(Matches(inst.styleName, lookup) && a in lookup[inst.styleName.value]) ==>
      r.location[a] == Midpoint(bounds[a])
  {
    inst.(location := Assign(inst.location, eAxes, Placement(inst.styleName, bounds, lookup)))
  }

  /** Every instance of the document, in order. */
  function PlaceInstances(insts: seq<Instance>, eAxes: seq<string>, bounds: map<string, Bounds>, lookup: map<string, map<string, real>>): (r: seq<Instance>)
    requires Covers(eAxes, bounds)
    ensures |r| == |insts|
    ensures forall i :: 0 <= i < |insts| ==> r[i] == PlaceInstance(insts[i], eAxes, bounds, lookup)
  {
    if |insts| == 0 then []
    else [PlaceInstance(insts[0], eAxes, bounds, lookup)] + PlaceInstances(insts[1..], eAxes, bounds, lookup)
  }

  /** An instance with an empty style name gets the midpoint on every extension
      axis, even when a blank `Instance` cell made `""` a lookup key. */
  lemma EmptyStyleGetsMidpoint(inst: Instance, eAxes: seq<string>, bounds: map<string, Bounds>, lookup: map<string, map<string, real>>)
    requires Covers(eAxes, bounds)
    requires inst.styleName == Some("")
    ensures forall a :: a in eAxes ==> PlaceInstance(inst, eAxes, bounds, lookup).location[a] == Midpoint(bounds[a])
  {
  }

  /** With ranges and lookup from a successful discovery, every placed coordinate
      on an extension axis lies inside that axis's range. */
  lemma PlacedWithinBounds(d: Discovery, inst: Instance)
    requires Valid(d)
    ensures forall a :: a in d.axes ==>
      d.bounds[a].min <= PlaceInstance(inst, d.axes, d.bounds, d.lookup).location[a] <= d.bounds[a].max
  {
  }

  /** Placing a second time changes nothing: the chosen values do not depend on the old location. */
  lemma PlaceInstanceIdempotent(inst: Instance, eAxes: seq<string>, bounds: map<string, Bounds>, lookup: map<string, map<string, real>>)
    requires Covers(eAxes, bounds)
    ensures var once := PlaceInstance(inst, eAxes, bounds, lookup);
      PlaceInstance(once, eAxes, bounds, lookup) == once
  {
    var values := Placement(inst.styleName, bounds, lookup);
    AssignIdempotent(inst.location, eAxes, values);
  }
}
