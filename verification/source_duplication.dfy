/** Step 3 of the merger (`duplicate_sources_and_update_designspace`): pin every
    master at the minimum of each extension axis, then add a copy of each master
    whose UFO exists, placed at the maximum of every extension axis. */
module SourceDuplication {
  import opened Common
  import opened Text
  import opened Mapping
  import opened Designspace

  /** The directory holding the master UFOs. */
  const SourceDir := "master_ufo"

  /** The family name the script means to give a copy whose master has none. */
  const DefaultFamily := "Crispy"

  function Minima(bounds: map<string, Bounds>): map<string, real> {
    map a | a in bounds :: bounds[a].min
  }

  function Maxima(bounds: map<string, Bounds>): map<string, real> {
    map a | a in bounds :: bounds[a].max
  }

  /** A master after the pinning loop: every extension axis at its minimum,
      overwriting any earlier value; nothing else changes. */
  function PinSource(s: Source, eAxes: seq<string>, bounds: map<string, Bounds>): (r: Source)
    requires Covers(eAxes, bounds)
    ensures r.filename == s.filename && r.name == s.name
    ensures r.familyName == s.familyName && r.styleName == s.styleName
    ensures forall a :: a in r.location <==> a in s.location || a in eAxes
    ensures forall a :: a in eAxes ==> r.location[a] == bounds[a].min
    ensures forall a :: a in s.location && a !in eAxes ==> r.location[a] == s.location[a]
  {
    s.(location := Assign(s.location, eAxes, Minima(bounds)))
  }

  /** Where the script looks for a master's UFO: its base name inside `SourceDir`. */
  function MasterPath(s: Source): string {
    SourceDir + "/" + Basename(s.filename)
  }

  /** `[a + 'Max' for a in eAxes]`. */
  function MaxNames(eAxes: seq<string>): (r: seq<string>)
    ensures |r| == |eAxes|
    ensures forall i :: 0 <= i < |r| ==> r[i] == eAxes[i] + "Max"
  {
    if |eAxes| == 0 then [] else [eAxes[0] + "Max"] + MaxNames(eAxes[1..])
  }

  /** The suffix naming a copy: the extension axes, each followed by `Max`, joined with dashes. */
  function MaxSuffix(eAxes: seq<string>): string {
    Join(MaxNames(eAxes), "-")
  }

  /** The suffix grows axis by axis: one more extension axis adds a dash and
      `<axis>Max`, and a single axis gives just `<axis>Max`. */
  lemma MaxSuffixAppend(eAxes: seq<string>, a: string)
    ensures |eAxes| == 0 ==> MaxSuffix(eAxes + [a]) == a + "Max"
    ensures |eAxes| > 0 ==> MaxSuffix(eAxes + [a]) == MaxSuffix(eAxes) + "-" + a + "Max"
  {
    assert MaxNames(eAxes + [a]) == MaxNames(eAxes) + [a + "Max"];
    JoinAppend(MaxNames(eAxes), "-", a + "Max");
  }

  /** The UFO's file name without directory and extension. */
  function UfoBase(s: Source): string {
    SplitExt(Basename(s.filename)).0
  }

  function UfoExt(s: Source): string {
    SplitExt(Basename(s.filename)).1
  }

  /** The location of a copy: the pinned master's location with every extension axis at its maximum. */
  function CopyLocation(loc: Location, eAxes: seq<string>, bounds: map<string, Bounds>): (r: Location)
    requires Covers(eAxes, bounds)
    ensures forall a :: a in r <==> a in loc || a in eAxes
    ensures forall a :: a in eAxes ==> r[a] == bounds[a].max
    ensures forall a :: a in loc && a !in eAxes ==> r[a] == loc[a]
  {
    Assign(loc, eAxes, Maxima(bounds))
  }

  /** Python's f-string rendering of an optional attribute: `None` prints as "None". */
  function Rendered(o: Option<string>): string {
    match o
    case Some(v) => v
    case None => "None"
  }

  /** The style name of a copy as the script writes it. */
  function CopyStyleAsWritten(s: Source, eAxes: seq<string>): string {
    Rendered(s.styleName) + "-" + MaxSuffix(eAxes)
  }

  /** The style name of a copy with the intended fallback to the UFO's base name. */
  function CopyStyle(s: Source, eAxes: seq<string>): string {
    var style := match s.styleName case Some(v) => v case None => UfoBase(s);
    style + "-" + MaxSuffix(eAxes)
  }

  /** The copy of a pinned master exactly as the script builds it. The script
      reads the names with `getattr` and a fallback, but a source descriptor
      always has both attributes, so the fallbacks never apply: an unset style
      name is rendered as "None" and an unset family name stays unset. */
  function DuplicateAsWritten(s: Source, eAxes: seq<string>, bounds: map<string, Bounds>): Source
    requires Covers(eAxes, bounds)
  {
    var suffix := MaxSuffix(eAxes);
    Source(
      UfoBase(s) + "-" + suffix + UfoExt(s),
      Some(UfoBase(s) + "-" + suffix),
      s.familyName,
      Some(CopyStyleAsWritten(s, eAxes)),
      CopyLocation(s.location, eAxes, bounds))
  }

  /** The copy of a pinned master with the intended fallbacks: an unset style
      name falls back to the UFO's base name and an unset family name to
      `DefaultFamily`. The copy sits at the master's location with every
      extension axis at its maximum and carries the `Max` suffix in its file
      name, source name and style name. */
  function DuplicateOf(s: Source, eAxes: seq<string>, bounds: map<string, Bounds>): (r: Source)
    requires Covers(eAxes, bounds)
    ensures r.filename == UfoBase(s) + "-" + MaxSuffix(eAxes) + UfoExt(s)
    ensures r.name == Some(UfoBase(s) + "-" + MaxSuffix(eAxes))
    ensures r.styleName.Some? && r.familyName.Some?
    ensures s.styleName.Some? ==> r.styleName.value == s.styleName.value + "-" + MaxSuffix(eAxes)
    ensures s.styleName.None? ==> r.styleName.value == UfoBase(s) + "-" + MaxSuffix(eAxes)
    ensures r.familyName.value == if s.familyName.Some? then s.familyName.value else DefaultFamily
    ensures r.location == CopyLocation(s.location, eAxes, bounds)
  {
    var suffix := MaxSuffix(eAxes);
    var family := match s.familyName case Some(v) => v case None => DefaultFamily;
    Source(
      UfoBase(s) + "-" + suffix + UfoExt(s),
      Some(UfoBase(s) + "-" + suffix),
      Some(family),
      Some(CopyStyle(s, eAxes)),
      CopyLocation(s.location, eAxes, bounds))
  }

  /** As written, a master with no style name yields a copy styled "None-…" and with no family. */
  lemma DuplicateAsWrittenUnsetNames(s: Source, eAxes: seq<string>, bounds: map<string, Bounds>)
    requires Covers(eAxes, bounds)
    requires s.styleName.None? && s.familyName.None?
    ensures DuplicateAsWritten(s, eAxes, bounds).styleName == Some("None-" + MaxSuffix(eAxes))
    ensures DuplicateAsWritten(s, eAxes, bounds).familyName.None?
  {
    assert "None" + "-" + MaxSuffix(eAxes) == "None-" + MaxSuffix(eAxes);
  }

  /** A concrete master that shows the difference: `Bold.ufo` with no names, one extension axis `W-e`. */
  lemma UnsetStyleCounterexample()
    ensures var s := Source("Bold.ufo", None, None, None, map[]);
            && CopyStyleAsWritten(s, ["W-e"]) == "None-W-eMax"
            && CopyStyle(s, ["W-e"]) == "Bold-W-eMax"
  {
    var file := "Bold.ufo";
    LastIndexSpec(file, '/');
    LastIndexSpec(file, '.');
    assert LastIndex(file, '/') == None by {
      assert '/' !in file;
    }
    assert LastIndex(file, '.') == Some(4) by {
      var d := LastIndex(file, '.');
      assert file[4] == '.';
      assert d.Some? && 4 <= d.value && file[d.value] == '.';
      assert forall j :: 4 < j < |file| ==> file[j] != '.';
    }
    assert HasExtension(file) by {
      assert file[0] != '.';
    }
    assert file[..4] == "Bold";
    assert MaxSuffix(["W-e"]) == "W-eMax" by {
      assert ["W-e"][1..] == [];
      assert "W-e" + "Max" == "W-eMax";
      assert MaxNames(["W-e"]) == ["W-eMax"];
    }
    assert "None" + "-" + "W-eMax" == "None-W-eMax";
    assert "Bold" + "-" + "W-eMax" == "Bold-W-eMax";
  }

  /** The two versions differ only when a name is unset. */
  lemma DuplicateAgreesWhenNamed(s: Source, eAxes: seq<string>, bounds: map<string, Bounds>)
    requires Covers(eAxes, bounds)
    requires s.styleName.Some? && s.familyName.Some?
    ensures DuplicateOf(s, eAxes, bounds) == DuplicateAsWritten(s, eAxes, bounds)
  {
  }

  /** The masters among `ss` whose UFO exists. */
  function HavingMaster(ss: seq<Source>, masters: set<string>): (r: set<Source>)
    ensures forall i :: 0 <= i < |ss| ==> (ss[i] in r <==> MasterPath(ss[i]) in masters)
    ensures forall s :: s in r ==> MasterPath(s) in masters
  {
    set s | s in ss && MasterPath(s) in masters
  }

  /** The masters among `ss` whose UFO exists, in order. */
  function WithMaster(ss: seq<Source>, masters: set<string>): seq<Source> {
    Filter(ss, HavingMaster(ss, masters))
  }

  /** Filtering a prefix by the whole list's masters is filtering it by its own. */
  lemma FilterRestrict(ss: seq<Source>, i: nat, masters: set<string>)
    requires i <= |ss|
    ensures Filter(ss[..i], HavingMaster(ss, masters)) == WithMaster(ss[..i], masters)
  {
    FilterAgree(ss[..i], HavingMaster(ss, masters), HavingMaster(ss[..i], masters));
  }

  /** The copies of a list of pinned masters, in order. */
  function CopyAll(ss: seq<Source>, eAxes: seq<string>, bounds: map<string, Bounds>): (r: seq<Source>)
    requires Covers(eAxes, bounds)
    ensures |r| == |ss|
    ensures forall k :: 0 <= k < |ss| ==> r[k] == DuplicateOf(ss[k], eAxes, bounds)
  {
    if |ss| == 0 then [] else [DuplicateOf(ss[0], eAxes, bounds)] + CopyAll(ss[1..], eAxes, bounds)
  }

  /** The copies of the pinned masters whose UFO exists, in master order. */
  function Duplicates(ss: seq<Source>, eAxes: seq<string>, bounds: map<string, Bounds>, masters: set<string>): seq<Source>
    requires Covers(eAxes, bounds)
  {
    CopyAll(WithMaster(ss, masters), eAxes, bounds)
  }

  /** One copy per master with an existing UFO and none for a missing one: the
      copy of master `i` sits at the position given by the number of masters
      with a UFO before it. */
  lemma DuplicatesOnePerMaster(ss: seq<Source>, eAxes: seq<string>, bounds: map<string, Bounds>, masters: set<string>)
    requires Covers(eAxes, bounds)
    ensures |Duplicates(ss, eAxes, bounds, masters)| == |WithMaster(ss, masters)| <= |ss|
    ensures forall i :: 0 <= i < |ss| && MasterPath(ss[i]) in masters ==>
      && |WithMaster(ss[..i], masters)| < |Duplicates(ss, eAxes, bounds, masters)|
      && Duplicates(ss, eAxes, bounds, masters)[|WithMaster(ss[..i], masters)|] == DuplicateOf(ss[i], eAxes, bounds)
  {
    var keep := HavingMaster(ss, masters);
    FilterPositions(ss, keep);
    forall i | 0 <= i < |ss| ensures Filter(ss[..i], keep) == WithMaster(ss[..i], masters) {
      FilterRestrict(ss, i, masters);
    }
  }

  /** Every copy is the copy of a master whose UFO exists. */
  lemma DuplicatesFromMasters(ss: seq<Source>, eAxes: seq<string>, bounds: map<string, Bounds>, masters: set<string>, k: nat)
      returns (i: nat)
    requires Covers(eAxes, bounds)
    requires k < |Duplicates(ss, eAxes, bounds, masters)|
    ensures i < |ss| && MasterPath(ss[i]) in masters
    ensures Duplicates(ss, eAxes, bounds, masters)[k] == DuplicateOf(ss[i], eAxes, bounds)
  {
    var kept := WithMaster(ss, masters);
    FilterMembers(ss, HavingMaster(ss, masters));
    i :| 0 <= i < |ss| && ss[i] == kept[k];
  }

  /** The pinned masters, in order. */
  function PinAll(ss: seq<Source>, eAxes: seq<string>, bounds: map<string, Bounds>): (r: seq<Source>)
    requires Covers(eAxes, bounds)
    ensures |r| == |ss|
    ensures forall i :: 0 <= i < |ss| ==> r[i] == PinSource(ss[i], eAxes, bounds)
  {
    if |ss| == 0 then [] else [PinSource(ss[0], eAxes, bounds)] + PinAll(ss[1..], eAxes, bounds)
  }

  /** `duplicate_sources_and_update_designspace` on the source list: the pinned
      masters first and in order, then the copies. Every source afterwards
      defines every extension axis: the masters at its minimum, the copies at
      its maximum. */
  function DuplicateSources(ss: seq<Source>, eAxes: seq<string>, bounds: map<string, Bounds>, masters: set<string>): (r: seq<Source>)
    requires Covers(eAxes, bounds)
    ensures |ss| <= |r| <= 2 * |ss|
    ensures forall i :: 0 <= i < |ss| ==> r[i] == PinSource(ss[i], eAxes, bounds)
    ensures forall i, a :: 0 <= i < |r| && a in eAxes ==>
      a in r[i].location && r[i].location[a] == (if i < |ss| then bounds[a].min else bounds[a].max)
  {
    var pinned := PinAll(ss, eAxes, bounds);
    var copies := Duplicates(pinned, eAxes, bounds, masters);
    FilterPositions(pinned, HavingMaster(pinned, masters));
    var r := pinned + copies;
    assert forall k :: 0 <= k < |copies| ==> r[|ss| + k] == copies[k];
    r
  }

  /** Two source lists whose masters sit at the same UFO paths, position by
      position, have the same number of masters with an existing UFO. */
  lemma SameMastersSameCount(xs: seq<Source>, ys: seq<Source>, masters: set<string>)
    requires |xs| == |ys|
    requires forall i :: 0 <= i < |xs| ==> MasterPath(xs[i]) == MasterPath(ys[i])
    ensures |WithMaster(xs, masters)| == |WithMaster(ys, masters)|
  {
    FilterSameLength(xs, HavingMaster(xs, masters), ys, HavingMaster(ys, masters));
  }

  /** Pinning keeps every master's UFO path. */
  lemma PinnedPaths(ss: seq<Source>, eAxes: seq<string>, bounds: map<string, Bounds>, i: nat)
    requires Covers(eAxes, bounds)
    requires i <= |ss|
    ensures forall n :: 0 <= n < i ==> MasterPath(PinAll(ss, eAxes, bounds)[..i][n]) == MasterPath(ss[..i][n])
  {
    var pinned := PinAll(ss, eAxes, bounds);
    forall n | 0 <= n < i ensures MasterPath(pinned[..i][n]) == MasterPath(ss[..i][n]) {
      assert pinned[..i][n] == PinSource(ss[n], eAxes, bounds);
    }
  }

  /** The copy of master `i`, whose UFO exists, follows the originals after
      the copies of the earlier masters with a UFO. */
  lemma CopyOfMaster(ss: seq<Source>, eAxes: seq<string>, bounds: map<string, Bounds>, masters: set<string>, i: nat)
    requires Covers(eAxes, bounds)
    requires i < |ss| && MasterPath(ss[i]) in masters
    ensures |ss| + |WithMaster(ss[..i], masters)| < |DuplicateSources(ss, eAxes, bounds, masters)|
    ensures DuplicateSources(ss, eAxes, bounds, masters)[|ss| + |WithMaster(ss[..i], masters)|]
         == DuplicateOf(PinSource(ss[i], eAxes, bounds), eAxes, bounds)
  {
    var pinned := PinAll(ss, eAxes, bounds);
    var copies := Duplicates(pinned, eAxes, bounds, masters);
    assert DuplicateSources(ss, eAxes, bounds, masters) == pinned + copies;
    PinnedPaths(ss, eAxes, bounds, i);
    SameMastersSameCount(pinned[..i], ss[..i], masters);
    assert MasterPath(pinned[i]) in masters;
    DuplicatesOnePerMaster(pinned, eAxes, bounds, masters);
    assert copies[|WithMaster(pinned[..i], masters)|] == DuplicateOf(pinned[i], eAxes, bounds);
  }

  /** After the pinned masters come exactly one copy per master whose UFO
      exists: the copy of master `i` is its pinned self raised to the maxima,
      placed after the copies of the earlier masters with an existing UFO. */
  lemma DuplicateSourcesPerMaster(ss: seq<Source>, eAxes: seq<string>, bounds: map<string, Bounds>, masters: set<string>)
    requires Covers(eAxes, bounds)
    ensures |DuplicateSources(ss, eAxes, bounds, masters)| == |ss| + |WithMaster(ss, masters)|
    ensures forall i :: 0 <= i < |ss| && MasterPath(ss[i]) in masters ==>
      && |ss| + |WithMaster(ss[..i], masters)| < |DuplicateSources(ss, eAxes, bounds, masters)|
      && DuplicateSources(ss, eAxes, bounds, masters)[|ss| + |WithMaster(ss[..i], masters)|]
         == DuplicateOf(PinSource(ss[i], eAxes, bounds), eAxes, bounds)
  {
    var pinned := PinAll(ss, eAxes, bounds);
    assert DuplicateSources(ss, eAxes, bounds, masters) == pinned + Duplicates(pinned, eAxes, bounds, masters);
    DuplicatesOnePerMaster(pinned, eAxes, bounds, masters);
    SameMastersSameCount(pinned, ss, masters);
    forall i | 0 <= i < |ss| && MasterPath(ss[i]) in masters
      ensures |ss| + |WithMaster(ss[..i], masters)| < |DuplicateSources(ss, eAxes, bounds, masters)|
      ensures DuplicateSources(ss, eAxes, bounds, masters)[|ss| + |WithMaster(ss[..i], masters)|]
           == DuplicateOf(PinSource(ss[i], eAxes, bounds), eAxes, bounds)
    {
      CopyOfMaster(ss, eAxes, bounds, masters, i);
    }
  }

  /** Every source after the pinned masters is the copy of a master whose UFO
      exists. */
  lemma DuplicateSourcesCopyOrigin(ss: seq<Source>, eAxes: seq<string>, bounds: map<string, Bounds>, masters: set<string>, j: nat)
      returns (i: nat)
    requires Covers(eAxes, bounds)
    requires |ss| <= j < |DuplicateSources(ss, eAxes, bounds, masters)|
    ensures i < |ss| && MasterPath(ss[i]) in masters
    ensures DuplicateSources(ss, eAxes, bounds, masters)[j] == DuplicateOf(PinSource(ss[i], eAxes, bounds), eAxes, bounds)
  {
    var pinned := PinAll(ss, eAxes, bounds);
    var r := DuplicateSources(ss, eAxes, bounds, masters);
    var copies := Duplicates(pinned, eAxes, bounds, masters);
    assert r == pinned + copies;
    var k := j - |ss|;
    assert r[j] == copies[k];
    i := DuplicatesFromMasters(pinned, eAxes, bounds, masters, k);
    assert pinned[i] == PinSource(ss[i], eAxes, bounds);
  }

  /** A master at the empty location is pinned to 100 on `Weight-e` with the
      range 100..100, and its copy sits there as well. */
  lemma ScenarioLocations(s: Source)
    requires s.location == map[]
    ensures var bounds := map["Weight-e" := Bounds(100.0, 100.0)];
      && PinSource(s, ["Weight-e"], bounds).location == map["Weight-e" := 100.0]
      && DuplicateOf(PinSource(s, ["Weight-e"], bounds), ["Weight-e"], bounds).location == map["Weight-e" := 100.0]
  {
    var bounds := map["Weight-e" := Bounds(100.0, 100.0)];
    var p := PinSource(s, ["Weight-e"], bounds);
    assert p.location.Keys == {"Weight-e"};
    var c := DuplicateOf(p, ["Weight-e"], bounds);
    assert c.location.Keys == {"Weight-e"};
  }

  /** A master at the empty location whose UFO exists, with one extension axis
      `Weight-e` whose range is the single value 100: the master is pinned to
      100 and its copy, appended after it, sits at 100 as well. */
  lemma OneSourceScenario(s: Source)
    requires s.location == map[]
    ensures var bounds := map["Weight-e" := Bounds(100.0, 100.0)];
      var r := DuplicateSources([s], ["Weight-e"], bounds, {MasterPath(s)});
      && |r| == 2
      && r[0].location == map["Weight-e" := 100.0]
      && r[1].location == map["Weight-e" := 100.0]
  {
    var eAxes := ["Weight-e"];
    var bounds := map["Weight-e" := Bounds(100.0, 100.0)];
    var masters := {MasterPath(s)};
    var r := DuplicateSources([s], eAxes, bounds, masters);
    assert [s][..0] == [];
    assert |WithMaster([], masters)| == 0;
    CopyOfMaster([s], eAxes, bounds, masters, 0);
    ScenarioLocations(s);
    assert r[0] == PinSource(s, eAxes, bounds);
  }
}
