/** The whole run of the merger (`main`): read the mapping, then rewrite the
    loaded document in four steps and compute the defaults written back. */
module Regenerate {
  import opened Common
  import opened Designspace
  import opened Mapping
  import opened AxisMerge
  import opened SourceDuplication
  import opened InstancePlacement
  import opened AxisDefaults

  /** The rewritten document and the default written on each of its axes. */
  datatype Output = Output(doc: Doc, defaults: seq<Extended>)

  /** Steps 2 to 4 on the loaded document. */
  function Transform(doc: Doc, d: Discovery, masters: set<string>): Doc
    requires Covers(d.axes, d.bounds)
  {
    Doc(
      EnsureAxes(doc.axes, d.axes, d.bounds),
      DuplicateSources(doc.sources, d.axes, d.bounds, masters),
      PlaceInstances(doc.instances, d.axes, d.bounds, d.lookup))
  }

  /** When every source defines an axis, the masters at `lo` and the rest at
      `hi >= lo`, and there is at least one master, the minimum is `lo`. */
  lemma MinimumOfPinnedAndCopies(sources: seq<Source>, masters: nat, axis: string, lo: real, hi: real)
    requires 0 < masters <= |sources|
    requires lo <= hi
    requires forall i :: 0 <= i < |sources| ==>
      axis in sources[i].location && sources[i].location[axis] == (if i < masters then lo else hi)
    ensures MinOver(sources, axis) == Finite(lo)
  {
    MinOverSpec(sources, axis);
    assert axis in sources[0].location;
  }

  /** A copy's coordinate on a non-extension axis is its master's original coordinate. */
  lemma CopyCoordinateFromMaster(ss: seq<Source>, eAxes: seq<string>, bounds: map<string, Bounds>, masters: set<string>, j: nat, axis: string)
      returns (i: nat)
    requires Covers(eAxes, bounds)
    requires axis !in eAxes
    requires |ss| <= j < |DuplicateSources(ss, eAxes, bounds, masters)|
    requires axis in DuplicateSources(ss, eAxes, bounds, masters)[j].location
    ensures i < |ss| && axis in ss[i].location
    ensures ss[i].location[axis] == DuplicateSources(ss, eAxes, bounds, masters)[j].location[axis]
  {
    i := DuplicateSourcesCopyOrigin(ss, eAxes, bounds, masters, j);
  }

  /** Pinning and duplicating leave the minimum on every other axis as it was:
      the default written on a pre-existing, non-extension axis is the minimum
      over the original sources. */
  lemma DuplicationKeepsOtherMinima(ss: seq<Source>, eAxes: seq<string>, bounds: map<string, Bounds>, masters: set<string>, axis: string)
    requires Covers(eAxes, bounds)
    requires axis !in eAxes
    ensures MinOver(DuplicateSources(ss, eAxes, bounds, masters), axis) == MinOver(ss, axis)
  {
    var r := DuplicateSources(ss, eAxes, bounds, masters);
    forall x | x in ValuesOn(ss, axis) ensures x in ValuesOn(r, axis) {
      var i :| 0 <= i < |ss| && axis in ss[i].location && ss[i].location[axis] == x;
      assert r[i] == PinSource(ss[i], eAxes, bounds);
    }
    forall x | x in ValuesOn(r, axis) ensures x in ValuesOn(ss, axis) {
      var j :| 0 <= j < |r| && axis in r[j].location && r[j].location[axis] == x;
      if j < |ss| {
        assert r[j] == PinSource(ss[j], eAxes, bounds);
      } else {
        var i := CopyCoordinateFromMaster(ss, eAxes, bounds, masters, j, axis);
      }
    }
    MinOverSameValues(r, ss, axis);
  }

  /** What steps 2 to 4 guarantee about the rewritten document. */
  lemma TransformGuarantees(doc: Doc, d: Discovery, masters: set<string>)
    requires Valid(d)
    ensures var out := Transform(doc, d, masters);
      && |out.axes| >= |doc.axes| && out.axes[..|doc.axes|] == doc.axes
      && (forall a :: a in d.axes ==> a in AxisNames(out.axes))
      && (forall i :: |doc.axes| <= i < |out.axes| ==> out.axes[i].default == d.bounds[out.axes[i].name].min)
      && |out.sources| == |doc.sources| + |WithMaster(doc.sources, masters)|
      && (forall k :: 0 <= k < |doc.sources| ==> out.sources[k] == PinSource(doc.sources[k], d.axes, d.bounds))
      && (forall k :: 0 <= k < |doc.sources| && MasterPath(doc.sources[k]) in masters ==>
            && |doc.sources| + |WithMaster(doc.sources[..k], masters)| < |out.sources|
            && out.sources[|doc.sources| + |WithMaster(doc.sources[..k], masters)|]
               == DuplicateOf(PinSource(doc.sources[k], d.axes, d.bounds), d.axes, d.bounds))
      && (forall k, a :: 0 <= k < |out.sources| && a in d.axes ==> a in out.sources[k].location)
      && |out.instances| == |doc.instances|
      && (forall k, a :: 0 <= k < |out.instances| && a in d.axes ==>
            a in out.instances[k].location
            && d.bounds[a].min <= out.instances[k].location[a] <= d.bounds[a].max)
  {
    var out := Transform(doc, d, masters);
    DuplicateSourcesPerMaster(doc.sources, d.axes, d.bounds, masters);
    forall k | 0 <= k < |out.instances| {
      PlacedWithinBounds(d, doc.instances[k]);
    }
  }

  /** The default written on an extension axis is its CSV minimum when the
      document has a master, and infinity when it has none. */
  lemma ExtensionDefaults(doc: Doc, d: Discovery, masters: set<string>)
    requires Valid(d)
    ensures var out := Transform(doc, d, masters);
      forall i :: 0 <= i < |out.axes| && out.axes[i].name in d.axes ==>
        MinOver(out.sources, out.axes[i].name) == if |doc.sources| > 0 then Finite(d.bounds[out.axes[i].name].min) else Infinity
  {
    var out := Transform(doc, d, masters);
    forall i | 0 <= i < |out.axes| && out.axes[i].name in d.axes
      ensures MinOver(out.sources, out.axes[i].name) == if |doc.sources| > 0 then Finite(d.bounds[out.axes[i].name].min) else Infinity
    {
      var a := out.axes[i].name;
      if |doc.sources| > 0 {
        MinimumOfPinnedAndCopies(out.sources, |doc.sources|, a, d.bounds[a].min, d.bounds[a].max);
      }
    }
  }

  /** `main`: a mapping error stops the run before the document is touched;
      otherwise the result is the rewritten document, whose defaults are the
      minima over its sources. */
  method Regenerate(table: Table, doc: Doc, masters: set<string>) returns (r: Result<Output, MappingError>)
    requires Parsed(table)
    ensures Discover(table).Failure? ==> r == Failure(Discover(table).error)
    ensures Discover(table).Success? ==> r.Success? && Valid(Discover(table).value)
    ensures r.Success? ==> r.value.doc == Transform(doc, Discover(table).value, masters)
    ensures r.Success? ==> |r.value.defaults| == |r.value.doc.axes|
    ensures r.Success? ==> forall i :: 0 <= i < |r.value.doc.axes| ==>
      r.value.defaults[i] == MinOver(r.value.doc.sources, r.value.doc.axes[i].name)
  {
    var discovered := Discover(table);
    if discovered.Failure? {
      return Failure(discovered.error);
    }
    DiscoverValid(table);
    var out := Transform(doc, discovered.value, masters);
    var defaults := WrittenDefaults(out);
    r := Success(Output(out, defaults));
  }

  /** The end-to-end promise of a successful run with discovery `d`: the
      document keeps its axes and gains the missing extension axes, every source
      and instance has a coordinate on every extension axis, instance
      coordinates stay inside the ranges, and the default written on an
      extension axis is its CSV minimum (the value a new axis was created with)
      whenever the document has a master. */
  lemma RunGuarantees(doc: Doc, d: Discovery, masters: set<string>, out: Output)
    requires Valid(d)
    requires out.doc == Transform(doc, d, masters)
    requires |out.defaults| == |out.doc.axes|
    requires forall i :: 0 <= i < |out.doc.axes| ==> out.defaults[i] == MinOver(out.doc.sources, out.doc.axes[i].name)
    ensures out.doc.axes[..|doc.axes|] == doc.axes
    ensures forall a :: a in d.axes ==> a in AxisNames(out.doc.axes)
    ensures forall k, a :: 0 <= k < |out.doc.sources| && a in d.axes ==> a in out.doc.sources[k].location
    ensures forall k, a :: 0 <= k < |out.doc.instances| && a in d.axes ==>
      a in out.doc.instances[k].location
      && d.bounds[a].min <= out.doc.instances[k].location[a] <= d.bounds[a].max
    ensures forall i :: 0 <= i < |out.doc.axes| && out.doc.axes[i].name in d.axes ==>
      out.defaults[i] == if |doc.sources| > 0 then Finite(d.bounds[out.doc.axes[i].name].min) else Infinity
    ensures forall i :: |doc.axes| <= i < |out.doc.axes| && |doc.sources| > 0 ==>
      out.defaults[i] == Finite(out.doc.axes[i].default)
  {
    TransformGuarantees(doc, d, masters);
    ExtensionDefaults(doc, d, masters);
  }
}
