# Designspace axis merge

This project is a Dafny model of `generate_new_designspace.py`. The script takes a
variable font's design space (axes, master sources, named instances) and a CSV mapping
table. It then merges new "extension" axes into the design space. An extension axis is any
CSV column whose header contains the substring `-e`. The script runs five steps:

1. **Discovery** (`get_e_axes_and_lookup`). Read the header and pick out the extension
   axes. Take each extension column's minimum and maximum as that axis's range. Build a
   lookup from the whitespace-stripped `Instance` cell of each row to that row's non-empty
   numeric cells.
2. **Axis merge** (`ensure_e_axes`). Append every extension axis that the document does
   not already declare. Its tag is the first four characters of its name. Its minimum and
   default are the column minimum, and its maximum is the column maximum.
3. **Source duplication** (`duplicate_sources_and_update_designspace`). Pin every
   original master at the minimum of every extension axis. Then, for every master whose
   UFO exists in `master_ufo`, append one copy named `<base>-<A>Max-<B>Max…<ext>`, placed
   at the maximum of every extension axis.
4. **Instance placement** (`update_instances_with_e_axes`). Give every instance a
   coordinate on every extension axis. If the instance's style name is a non-empty key of
   the lookup and that row has a value for the axis, use it. Otherwise use the midpoint of
   the axis range. A blank `Instance` cell makes `""` a lookup key, but an instance with
   an empty style name still gets the midpoint.
5. **Axis defaults** (`set_axis_defaults_to_minimums`). For each axis, write as its
   default the smallest coordinate any source has on it. If no source defines the axis,
   the value is `inf`.

The modules follow those steps:

- `Common`: `Option`, `Result`, and an order-preserving `Filter`.
- `Text`: Python's `str.strip`, the `-e` substring test, `os.path.basename` and
  `os.path.splitext` (as on POSIX), slicing a tag and `'-'.join`.
- `Designspace`: axes, sources, instances, the document, and the per-axis location
  write loop `Assign`.
- `Mapping`: step 1.
- `AxisMerge`: step 2.
- `SourceDuplication`: step 3.
- `InstancePlacement`: step 4.
- `AxisDefaults`: step 5.
- `Regenerate`: the `main` pipeline, with end-to-end guarantees.

The CSV arrives already parsed: a header (or none) and rows of optional numbers. As
`csv.DictReader` yields them, a row has cells only for header fields, so it has an
`Instance` cell only when the header has that column (`Mapping.Parsed`). The file-system
state is a set of the master UFO paths that exist.

The script has these corner cases, and the model keeps them (the one corner case it
handles differently is the copy naming under "## Findings"):

- **A row with no `Instance` cell.** The script crashes at line 31: with a `KeyError`
  when the header has no `Instance` column, and with an `AttributeError` on `None.strip()`
  when a short row leaves the cell unset. The model reports `MissingInstance(0)` in the
  first case and `MissingInstance(row)` for the first such row in the second.
- **An extension column with no values.** The script crashes on `min([])`. The model
  reports `EmptyColumn(axis)`.
- **A master whose UFO is missing.** It gets no copy, so the copies are one per master
  whose UFO exists, not one per source.
- **Lookup keys versus instance style names.** The keys are stripped, but instance style
  names are not. So an instance styled `" Bold"` never matches.
- **A header that repeats an extension column.** The new axis is appended twice. This is
  because `ensure_e_axes` compares against the names it collected before its loop.

## Model

| member | source | states |
|---|---|---|
| Text.StripSpec | generate_new_designspace.py:31 | `strip` removes exactly a maximal run of whitespace from each end: the result is a contiguous slice of the input, everything cut off is whitespace, and the result neither starts nor ends with whitespace |
| Text.StripIdempotent | generate_new_designspace.py:31 | stripping a stripped name changes nothing, so the lookup keys are stable |
| Text.LastIndexSpec | generate_new_designspace.py:69-70 | the last-occurrence search finds nothing exactly when the character is absent; otherwise it names an occurrence with none after it |
| Text.BasenameSpec | generate_new_designspace.py:69 | `basename` (POSIX rules) is the suffix after the last `/` (the whole path if there is none) and contains no `/` |
| Text.SplitExtSpec | generate_new_designspace.py:70 | `splitext` splits the name into root + ext that concatenate back to it; ext is empty exactly when there is no dot after a non-dot character; otherwise ext is a `.` followed by no other dot |
| Text.TagIsPrefix | generate_new_designspace.py:51 | the tag is a prefix of the axis name, at most four characters long, and the whole name when the name is shorter |
| Text.JoinAppend | generate_new_designspace.py:71 | `'-'.join` puts exactly one separator between consecutive parts: joining one more part appends the separator and that part, and a lone part joins as itself |
| Mapping.ExtensionAxes | generate_new_designspace.py:26 | a header field is an extension axis exactly when it contains `-e`; the selection never grows the header |
| Mapping.ExtensionAxesAppend | generate_new_designspace.py:26 | selection distributes over concatenation, so extension axes keep header order |
| Mapping.ExtensionAxesDistinct | generate_new_designspace.py:26 | a header without repeated fields yields extension axes without repeats |
| Mapping.ColumnValues | generate_new_designspace.py:36 | a value belongs to the column exactly when some row has that non-empty cell |
| Mapping.SeqMin | generate_new_designspace.py:37 | the minimum of a non-empty column is one of its values and no value is below it |
| Mapping.SeqMax | generate_new_designspace.py:37 | the maximum of a non-empty column is one of its values and no value is above it |
| Mapping.FirstUnnamed | generate_new_designspace.py:30-31 | the reported row lacks an `Instance` cell and every earlier row has one; nothing is reported when all rows are named |
| Mapping.FirstEmptyColumn | generate_new_designspace.py:35-37 | the reported axis is an extension axis whose column has no values; nothing is reported exactly when every extension column is non-empty |
| Mapping.StyleLookupKeys | generate_new_designspace.py:29-32 | the lookup keys are exactly the stripped `Instance` names of the rows |
| Mapping.StyleLookupEntryFromRow | generate_new_designspace.py:30-32 | every lookup entry is the non-empty, non-`Instance` cells of some row with that stripped name |
| Mapping.StyleLookupLastRowWins | generate_new_designspace.py:30-32 | when several rows share a stripped name, the entry comes from the last of them |
| Mapping.Ranges | generate_new_designspace.py:34-37 | each extension axis gets a range whose ends are the least and greatest values in its column |
| Mapping.Discover | generate_new_designspace.py:19-41 | on a table shaped as `DictReader` yields it, discovery fails with the first of: no header, the first unnamed row, an empty extension column; it succeeds exactly when none applies, and then returns the header's extension axes, their column ranges and the row lookup |
| Mapping.MissingInstanceColumn | generate_new_designspace.py:31 | a header without an `Instance` column stops discovery at the first row, where `row['Instance']` fails |
| Mapping.LookupFieldsInHeader | generate_new_designspace.py:32 | every field in a lookup entry is a header field other than `Instance` |
| Mapping.LookupValueInColumn | generate_new_designspace.py:30-37 | a lookup value on an extension axis also occurs in that axis's column |
| Mapping.DiscoverValid | generate_new_designspace.py:30-37 | a successful discovery has min <= max on every axis, and every lookup value on an extension axis lies within that axis's range |
| Mapping.OneRowScenario | generate_new_designspace.py:19-41 | header `Instance,Weight-e,Width` with row `Bold,100,200` yields the axis `Weight-e`, range 100..100, and the lookup `Bold -> {Weight-e: 100, Width: 200}` |
| Designspace.Assign | generate_new_designspace.py:66-67 | writing each axis in turn leaves the keys as the old keys plus the axes, each axis holding its given value and every other coordinate unchanged |
| Designspace.AssignIdempotent | generate_new_designspace.py:66-67 | writing the same axis values twice is the same as writing them once |
| AxisMerge.MissingAxes | generate_new_designspace.py:47-55 | every appended axis is an extension axis not declared before, built from its name, tag and range, with the minimum as default |
| AxisMerge.MissingAxesAppend | generate_new_designspace.py:47-55 | the axes are appended in the order of the extension axes: a pass over two consecutive runs of names appends the first run's axes, then the second's |
| AxisMerge.MissingAxesCover | generate_new_designspace.py:47-55 | every extension axis that was not declared is appended |
| AxisMerge.MissingAxesNone | generate_new_designspace.py:47-48 | nothing is appended when every extension axis is already declared |
| AxisMerge.EnsureAxes | generate_new_designspace.py:44-58 | the existing axes stay first and unchanged; only new extension axes follow; the declared names become the old names plus the extension axes |
| AxisMerge.EnsureAxesIdempotent | generate_new_designspace.py:44-58 | running the axis merge again on its own output adds nothing |
| AxisMerge.MissingAxesDistinct | generate_new_designspace.py:47-55 | with distinct extension axes, the appended axes have distinct names |
| AxisMerge.EnsureAxesKeepsNamesDistinct | generate_new_designspace.py:44-58 | a document with distinct axis names keeps them distinct after the merge, given distinct extension axes |
| SourceDuplication.PinSource | generate_new_designspace.py:64-67 | an original master keeps its file and names, sits at the minimum of every extension axis, and keeps every other coordinate |
| SourceDuplication.CopyLocation | generate_new_designspace.py:86-88 | the copy's location is the master's, moved to the maximum of every extension axis with every other coordinate kept |
| SourceDuplication.MaxSuffixAppend | generate_new_designspace.py:71 | the copy suffix lists every extension axis as `<axis>Max`, in order, separated by single dashes: one more axis appends `-<axis>Max`, and a single axis gives `<axis>Max` |
| SourceDuplication.DuplicateOf | generate_new_designspace.py:81-89 | the copy's file is `<base>-<suffix><ext>` and its name `<base>-<suffix>`; its style is the master's style (or the UFO base) plus the suffix; its family is the master's (or `Crispy`); it sits at the maxima |
| SourceDuplication.DuplicateAsWrittenUnsetNames | generate_new_designspace.py:84-85 | as written, a master with no style or family name gets a copy styled `None-<suffix>` with no family |
| SourceDuplication.UnsetStyleCounterexample | generate_new_designspace.py:84-85 | for master `Bold.ufo` with no names and axis `W-e`, the as-written copy is styled `None-W-eMax`, but the intended one is `Bold-W-eMax` |
| SourceDuplication.DuplicateAgreesWhenNamed | generate_new_designspace.py:81-89 | for a master with a style and family name, the corrected copy and the as-written copy are identical |
| SourceDuplication.DuplicatesOnePerMaster | generate_new_designspace.py:64-91 | there is one copy per master whose UFO exists, in master order, and master i's copy is at the position counting the earlier masters that exist |
| SourceDuplication.DuplicatesFromMasters | generate_new_designspace.py:76-91 | every copy is the copy of some master whose UFO exists |
| SourceDuplication.DuplicateSources | generate_new_designspace.py:61-91 | the originals keep their order and are pinned; the result has between one and two times as many sources; every source defines every extension axis, the originals at its minimum and every later source at its maximum |
| SourceDuplication.DuplicateSourcesPerMaster | generate_new_designspace.py:64-91 | the result has one copy for each master whose UFO exists and no other; master i's copy, made from its pinned self, follows the originals after the copies of the earlier masters with a UFO |
| SourceDuplication.DuplicateSourcesCopyOrigin | generate_new_designspace.py:76-91 | every source after the originals is the copy of some master whose UFO exists |
| SourceDuplication.OneSourceScenario | generate_new_designspace.py:61-91 | one existing master with no coordinates and range 100..100 on `Weight-e` yields two sources, the pinned master and its copy, both at `Weight-e` = 100 |
| InstancePlacement.PlaceInstance | generate_new_designspace.py:96-108 | an instance keeps its names and other coordinates and gains every extension axis; it takes the lookup value when its style is a non-empty key whose row has the axis, and the range midpoint otherwise |
| InstancePlacement.EmptyStyleGetsMidpoint | generate_new_designspace.py:100 | an instance whose style name is empty gets the midpoint on every extension axis, even when `""` is a lookup key |
| InstancePlacement.PlacedWithinBounds | generate_new_designspace.py:99-108 | after a valid discovery, every placed extension coordinate lies within its axis range |
| InstancePlacement.PlaceInstanceIdempotent | generate_new_designspace.py:96-108 | placing an instance a second time changes nothing |
| AxisDefaults.MinOverSpec | generate_new_designspace.py:116-120 | the running minimum stays `inf` exactly when no source defines the axis; otherwise it is a source's coordinate and no source's coordinate is below it |
| AxisDefaults.MinOverIsLeast | generate_new_designspace.py:116-120 | the running minimum is the least element of the set of coordinates the sources have on the axis, or `inf` when that set is empty |
| AxisDefaults.MinOverSameValues | generate_new_designspace.py:116-120 | the minimum depends only on which coordinates occur, not on source order or repetition |
| AxisDefaults.AxisMinimums | generate_new_designspace.py:114-120 | the minima dictionary has exactly the axis names as keys, each mapped to the least source coordinate (or `inf`) |
| AxisDefaults.WrittenDefaults | generate_new_designspace.py:126-130 | every declared axis is given, in order, the minimum over the sources as its default |
| Regenerate.MinimumOfPinnedAndCopies | generate_new_designspace.py:116-120 | when the originals sit at the low end and the copies at the high end of an axis, the minimum is the low end |
| Regenerate.CopyCoordinateFromMaster | generate_new_designspace.py:86-88 | a copy's coordinate on a non-extension axis is one of the originals' coordinates |
| Regenerate.DuplicationKeepsOtherMinima | generate_new_designspace.py:114-120 | duplicating the sources leaves the minimum of every non-extension axis unchanged |
| Regenerate.TransformGuarantees | generate_new_designspace.py:143-145 | after the three document steps, the old axes come first and the new ones default to their minimum; every extension axis is declared; the originals are pinned, followed by exactly one copy per master whose UFO exists, at its counted position; every source has a coordinate on every extension axis; every instance has one within its range |
| Regenerate.ExtensionDefaults | generate_new_designspace.py:111-130 | when the document has sources, each extension axis's written default equals its column minimum, and `inf` when it has none |
| Regenerate.Regenerate | generate_new_designspace.py:140-147 | the pipeline stops with discovery's error when discovery fails; otherwise it returns the transformed document and one minimum default per axis |
| Regenerate.RunGuarantees | generate_new_designspace.py:140-147 | in any successful run, every new axis's written default equals the default it was created with, provided the document has sources, and every placed coordinate lies within its range |

## Left out

- CSV reading and `float()` parsing. Rows arrive as optional reals. Non-numeric cells
  and the extra fields that `DictReader` puts under a `None` key (both make the script
  raise) are not represented.
- File-system effects. The existence of master UFOs is a fixed input set. `rmtree` and
  `copytree` do not change it, so the case where the `rmtree` at line 75 deletes a later
  master's UFO, because input and output share `master_ufo`, is not modelled.
- The `relpath` at line 82. The copy's filename is the bare new UFO name. That is what
  `relpath` yields when the output design space sits in `master_ufo`, as configured.
- Reading and writing the design space (`fontTools`, `lxml`). The model computes the
  default written for each axis, but not the XML text or the `str(float)` rendering.
- Floating point. Coordinates are exact reals, so rounding in the midpoint and in
  `float()` is not modelled. NaN is not modelled either.
- Descriptor fields the script never touches (layer names, localised names, axis maps
  and labels, instance filenames). Copies are built with only the fields the script sets.
- An instance location of `None` is treated as an empty location.
- Saving the document before step 5 (`doc.write` at line 137, called at line 146) is
  assumed to leave the source locations in memory untouched, so the minima are taken over
  the locations steps 2 to 4 produced. A writer that normalised every source location onto
  the document's axes would change which axes each source defines, and this is not modelled.
- A source's file name is always set. A `<source>` without a `filename` attribute makes
  `os.path.basename(None)` at line 69 raise, and that failure is not modelled.
- `Text.Basename`, `Text.SplitExt`: they follow the POSIX rules, splitting only on `/`.
  On Windows, `os.path` also splits on `\` and drive letters, and that is not modelled.
- Logging and `print`, the `exit(1)` call itself (modelled as the `NoHeader` error),
  `extract-designspace.py` and the width inspector scripts. They are outside the axis
  merge.
- SourceDuplication.DuplicateOf: the model's copies use the evidently intended fallback
  names, not the as-written `None` style (see Findings).

## Findings

| source | as written | input that shows it | evidently intended | confidence | as-written member | corrected member |
|---|---|---|---|---|---|---|
| generate_new_designspace.py:84-85 | the fallbacks `getattr(source, 'familyName', 'Crispy')` and `getattr(source, 'styleName', ufo_base)` never apply, because a source descriptor always has both attributes, defaulting to `None` | master `Bold.ufo` with no style or family name and extension axis `W-e`: the copy is styled `None-W-eMax` and has no family | the copy is styled `Bold-W-eMax` and belongs to family `Crispy` | medium (depends on the descriptor defaulting both attributes to `None`); not executed | SourceDuplication.UnsetStyleCounterexample | SourceDuplication.DuplicateOf |
