/** Step 5 of the merger (`set_axis_defaults_to_minimums`): after the document is
    written, every axis default is overwritten with the smallest coordinate any
    source has on that axis, or infinity when no source has one. */
module AxisDefaults {
  import opened Designspace

  /** A float the script can hold here: a finite coordinate or `float('inf')`. */
  datatype Extended = Finite(value: real) | Infinity

  /** Python's `min(current, x)` when `current` may be infinite. */
  function MinWith(current: Extended, x: real): Extended {
    match current
    case Infinity => Finite(x)
    case Finite(m) => Finite(if x < m then x else m)
  }

  /** The minimum over the sources that define `axis`, folded in source order. */
  function MinOver(sources: seq<Source>, axis: string): Extended
    decreases |sources|
  {
    if |sources| == 0 then Infinity
    else
      var last := sources[|sources| - 1];
      var before := MinOver(sources[..|sources| - 1], axis);
      if axis in last.location then MinWith(before, last.location[axis]) else before
  }

  /** The minimum is infinite exactly when no source defines the axis; otherwise
      it is one of the sources' coordinates and no source is below it. */
  lemma {:induction false} MinOverSpec(sources: seq<Source>, axis: string)
    ensures MinOver(sources, axis).Infinity? <==> forall i :: 0 <= i < |sources| ==> axis !in sources[i].location
    ensures MinOver(sources, axis).Finite? ==>
      exists i :: 0 <= i < |sources| && axis in sources[i].location && sources[i].location[axis] == MinOver(sources, axis).value
    ensures MinOver(sources, axis).Finite? ==>
      forall i :: 0 <= i < |sources| && axis in sources[i].location ==> MinOver(sources, axis).value <= sources[i].location[axis]
    decreases |sources|
  {
    if |sources| > 0 {
      var init := sources[..|sources| - 1];
      assert forall i :: 0 <= i < |init| ==> init[i] == sources[i];
      MinOverSpec(init, axis);
    }
  }

  /** The coordinates the sources offer on `axis`. */
  function ValuesOn(sources: seq<Source>, axis: string): set<real> {
    set i | 0 <= i < |sources| && axis in sources[i].location :: sources[i].location[axis]
  }

  /** The fold computes the least of the offered coordinates, or infinity when there is none. */
  lemma MinOverIsLeast(sources: seq<Source>, axis: string)
    ensures MinOver(sources, axis).Infinity? <==> ValuesOn(sources, axis) == {}
    ensures MinOver(sources, axis).Finite? ==> MinOver(sources, axis).value in ValuesOn(sources, axis)
    ensures MinOver(sources, axis).Finite? ==> forall x :: x in ValuesOn(sources, axis) ==> MinOver(sources, axis).value <= x
  {
    MinOverSpec(sources, axis);
    var m := MinOver(sources, axis);
    if m.Infinity? {
      assert ValuesOn(sources, axis) == {};
    } else {
      var i :| 0 <= i < |sources| && axis in sources[i].location && sources[i].location[axis] == m.value;
      assert m.value in ValuesOn(sources, axis);
    }
  }

  /** Two source lists offering the same coordinates on an axis have the same minimum on it. */
  lemma MinOverSameValues(s1: seq<Source>, s2: seq<Source>, axis: string)
    requires ValuesOn(s1, axis) == ValuesOn(s2, axis)
    ensures MinOver(s1, axis) == MinOver(s2, axis)
  {
    MinOverIsLeast(s1, axis);
    MinOverIsLeast(s2, axis);
  }

  /** One more source lowers the running minimum by its own coordinate, if it has one. */
  lemma MinOverStep(sources: seq<Source>, i: nat, axis: string)
    requires i < |sources|
    ensures MinOver(sources[..i + 1], axis) ==
      if axis in sources[i].location then MinWith(MinOver(sources[..i], axis), sources[i].location[axis])
      else MinOver(sources[..i], axis)
  {
    assert sources[..i + 1][..i] == sources[..i];
  }

  /** The script's nested loop: for each source in turn, for each axis it
      defines, lower that axis's running minimum. */
  method AxisMinimums(names: seq<string>, sources: seq<Source>) returns (mins: map<string, Extended>)
    ensures forall a :: a in mins <==> a in names
    ensures forall a :: a in mins ==> mins[a] == MinOver(sources, a)
  {
    mins := map a | a in names :: Infinity;
    var i := 0;
    while i < |sources|
      invariant i <= |sources|
      invariant forall a :: a in mins <==> a in names
      invariant forall a :: a in mins ==> mins[a] == MinOver(sources[..i], a)
    {
      var loc := sources[i].location;
      forall a ensures MinOver(sources[..i + 1], a) ==
        if a in loc then MinWith(MinOver(sources[..i], a), loc[a]) else MinOver(sources[..i], a)
      {
        MinOverStep(sources, i, a);
      }
      var j := 0;
      while j < |names|
        invariant j <= |names|
        invariant forall a :: a in mins <==> a in names
        invariant forall a :: a in mins && a in names[..j] ==> mins[a] == MinOver(sources[..i + 1], a)
        invariant forall a :: a in mins && a !in names[..j] ==> mins[a] == MinOver(sources[..i], a)
      {
        var a := names[j];
        if a in loc {
          mins := mins[a := MinWith(mins[a], loc[a])];
        }
        assert names[..j + 1] == names[..j] + [a];
        j := j + 1;
      }
      assert names[..j] == names;
      i := i + 1;
    }
    assert sources[..i] == sources;
  }

  /** The defaults written into the document's axis elements, in axis order. */
  method WrittenDefaults(doc: Doc) returns (defaults: seq<Extended>)
    ensures |defaults| == |doc.axes|
    ensures forall i :: 0 <= i < |doc.axes| ==> defaults[i] == MinOver(doc.sources, doc.axes[i].name)
  {
    var names := seq(|doc.axes|, i requires 0 <= i < |doc.axes| => doc.axes[i].name);
    var mins := AxisMinimums(names, doc.sources);
    defaults := [];
    var i := 0;
    while i < |doc.axes|
      invariant i <= |doc.axes|
      invariant |defaults| == i
      invariant forall k :: 0 <= k < i ==> defaults[k] == MinOver(doc.sources, doc.axes[k].name)
    {
      assert names[i] in names;
      defaults := defaults + [mins[doc.axes[i].name]];
      i := i + 1;
    }
  }
}
