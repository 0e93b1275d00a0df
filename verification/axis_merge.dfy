/** Step 2 of the merger (`ensure_e_axes`): append a descriptor for each
    extension axis the document does not declare yet. */
module AxisMerge {
  import opened Common
  import opened Text
  import opened Mapping
  import opened Designspace

  /** The descriptor of a new extension axis: tag from the first four characters
      of its name, range from the CSV, default at the minimum. */
  function NewAxis(name: string, b: Bounds): Axis {
    Axis(name, Tag(name), b.min, b.max, b.min)
  }

  /** The axes appended by one pass over `eAxes`, skipping every name in
      `existing`. The script takes `existing` once, before the loop, so a name
      repeated in `eAxes` is appended once per occurrence. Only absent
      extension axes are appended, each as its new descriptor. */
  function MissingAxes(eAxes: seq<string>, existing: set<string>, bounds: map<string, Bounds>): (r: seq<Axis>)
    requires Covers(eAxes, bounds)
    ensures forall i :: 0 <= i < |r| ==>
      && r[i].name in eAxes
      && r[i].name !in existing
      && r[i] == NewAxis(r[i].name, bounds[r[i].name])
  {
    if |eAxes| == 0 then []
    else
      var rest := MissingAxes(eAxes[1..], existing, bounds);
      var here := if eAxes[0] in existing then [] else [NewAxis(eAxes[0], bounds[eAxes[0]])];
      assert forall i :: 0 <= i < |rest| ==> (here + rest)[|here| + i] == rest[i];
      here + rest
  }

  /** The axes are appended in the order of the extension axes: one pass over
      two consecutive runs of names appends the first run's axes, then the
      second's. */
  lemma {:induction false} MissingAxesAppend(x: seq<string>, y: seq<string>, existing: set<string>, bounds: map<string, Bounds>)
    requires Covers(x + y, bounds)
    ensures MissingAxes(x + y, existing, bounds) == MissingAxes(x, existing, bounds) + MissingAxes(y, existing, bounds)
    decreases |x|
  {
    if |x| > 0 {
      assert (x + y)[0] == x[0];
      assert (x + y)[1..] == x[1..] + y;
      MissingAxesAppend(x[1..], y, existing, bounds);
    } else {
      assert x + y == y;
    }
  }

  /** Every absent extension axis is among the appended ones. */
  lemma {:induction false} MissingAxesCover(eAxes: seq<string>, existing: set<string>, bounds: map<string, Bounds>)
    requires Covers(eAxes, bounds)
    ensures forall a :: a in eAxes && a !in existing ==> a in AxisNames(MissingAxes(eAxes, existing, bounds))
    decreases |eAxes|
  {
    if |eAxes| > 0 {
      var rest := MissingAxes(eAxes[1..], existing, bounds);
      var here := if eAxes[0] in existing then [] else [NewAxis(eAxes[0], bounds[eAxes[0]])];
      MissingAxesCover(eAxes[1..], existing, bounds);
      AxisNamesAppend(here, rest);
      assert forall a :: a in eAxes ==> a == eAxes[0] || a in eAxes[1..];
      if eAxes[0] !in existing {
        assert here[0].name == eAxes[0];
      }
    }
  }

  /** Nothing is appended when every extension axis already exists. */
  lemma {:induction false} MissingAxesNone(eAxes: seq<string>, existing: set<string>, bounds: map<string, Bounds>)
    requires Covers(eAxes, bounds)
    requires forall a :: a in eAxes ==> a in existing
    ensures MissingAxes(eAxes, existing, bounds) == []
    decreases |eAxes|
  {
    if |eAxes| > 0 {
      MissingAxesNone(eAxes[1..], existing, bounds);
    }
  }

  /** `ensure_e_axes`: the document's axes first, unchanged and in order, then
      one new descriptor per extension axis it lacked. Afterwards the document
      declares every extension axis, and nothing besides. */
  function EnsureAxes(axes: seq<Axis>, eAxes: seq<string>, bounds: map<string, Bounds>): (r: seq<Axis>)
    requires Covers(eAxes, bounds)
    ensures |r| >= |axes| && r[..|axes|] == axes
    ensures forall i :: |axes| <= i < |r| ==>
      && r[i].name in eAxes
      && r[i].name !in AxisNames(axes)
      && r[i] == NewAxis(r[i].name, bounds[r[i].name])
    ensures forall a :: a in AxisNames(r) <==> a in AxisNames(axes) || a in eAxes
  {
    var added := MissingAxes(eAxes, AxisNames(axes), bounds);
    var r := axes + added;
    assert forall i :: 0 <= i < |added| ==> r[|axes| + i] == added[i];
    AxisNamesAppend(axes, added);
    MissingAxesCover(eAxes, AxisNames(axes), bounds);
    r
  }

  /** Running the merge a second time adds nothing. */
  lemma EnsureAxesIdempotent(axes: seq<Axis>, eAxes: seq<string>, bounds: map<string, Bounds>)
    requires Covers(eAxes, bounds)
    ensures EnsureAxes(EnsureAxes(axes, eAxes, bounds), eAxes, bounds) == EnsureAxes(axes, eAxes, bounds)
  {
    var once := EnsureAxes(axes, eAxes, bounds);
    MissingAxesNone(eAxes, AxisNames(once), bounds);
    assert once + [] == once;
  }

  /** With no repeated extension axis, the appended axes have pairwise distinct names. */
  lemma {:induction false} MissingAxesDistinct(eAxes: seq<string>, existing: set<string>, bounds: map<string, Bounds>)
    requires Covers(eAxes, bounds)
    requires NoDuplicates(eAxes)
    ensures DistinctNames(MissingAxes(eAxes, existing, bounds))
    decreases |eAxes|
  {
    if |eAxes| > 0 {
      var rest := MissingAxes(eAxes[1..], existing, bounds);
      assert NoDuplicates(eAxes[1..]) by {
        forall i, j | 0 <= i < j < |eAxes[1..]| ensures eAxes[1..][i] != eAxes[1..][j] {
          assert eAxes[1..][i] == eAxes[i + 1] && eAxes[1..][j] == eAxes[j + 1];
        }
      }
      MissingAxesDistinct(eAxes[1..], existing, bounds);
      forall i | 0 <= i < |rest| ensures rest[i].name != eAxes[0] {
        var k :| 0 <= k < |eAxes[1..]| && eAxes[1..][k] == rest[i].name;
        assert eAxes[k + 1] == rest[i].name;
      }
    }
  }

  /** A document whose axis names are unique keeps them unique, provided the
      header names no extension column twice: each missing axis is appended exactly once. */
  lemma EnsureAxesKeepsNamesDistinct(axes: seq<Axis>, eAxes: seq<string>, bounds: map<string, Bounds>)
    requires Covers(eAxes, bounds)
    requires DistinctNames(axes)
    requires NoDuplicates(eAxes)
    ensures DistinctNames(EnsureAxes(axes, eAxes, bounds))
  {
    var added := MissingAxes(eAxes, AxisNames(axes), bounds);
    MissingAxesDistinct(eAxes, AxisNames(axes), bounds);
    var r := axes + added;
    forall i, j | 0 <= i < j < |r| ensures r[i].name != r[j].name {
      if j >= |axes| && i < |axes| {
        assert r[j] == added[j - |axes|];
        assert r[i].name in AxisNames(axes);
      } else if i >= |axes| {
        assert r[i] == added[i - |axes|] && r[j] == added[j - |axes|];
      }
    }
  }
}
