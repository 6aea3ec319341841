# PyHyperScattering core in Dafny

A model of three pieces of PyHyperScattering, with proofs about that model.

- **The `rsoxs` accessor's chi logic** (`ChiWedges.dfy`):
  - building the accessor, which records the chi range or marks the data 'raw';
  - `_reRange_chi`, which moves an angle by whole turns toward the chi range;
  - `slice_chi`'s wrap-around selector over the chi coordinate;
  - how `AR` settles its two wedge centres, their reflections and its 90 ± 2 degree warning;
  - `_checkChiOverlap`, which warns about every pair of wedges sharing more than one chi value.
- **High-dynamic-range assembly** (`Hdr.dfy`):
  - `scaleAndMask` picks the grouping levels of the stacked `system` index.
  - `hdr_recurse` splits the stack on the last of those levels and recurses on each group.
  - `hdr_work`, at each innermost group, masks counts outside the cutoffs and scales the frames by exposure; the model divides every frame by its own exposure, the evidently intended reading of the code (see Findings).
  - The groups' rows and level values are gathered into the parallel lists the `system` MultiIndex is built from.

  `groupby` is modelled as its sorted distinct labels, with the frames of each label in stack order.
- **Optional dependencies** (`OptionalDeps.dfy`):
  - the `OPTIONAL_DEPS` table and its `unknown` default;
  - the session-wide `_warned_packages` set, as the field of a `Registry` class;
  - `warn_if_missing`;
  - the wrapper that `requires_optional` puts around a function.

  Whether a package imports is the predicate `installed`, fixed when the registry is created.

`Wrappers.dfy` holds the `Option` and `Result` types that the error paths use.

## Model

| member | source | states |
|---|---|---|
| ChiWedges.Mod360 | src/PyHyperScattering/RSoXS.py:280 | Python's floored `% 360` lands in [0, 360) and names the same direction as its argument |
| ChiWedges.Init | src/PyHyperScattering/RSoXS.py:13-22 | data without chi is 'raw'; a chi coordinate gives a 'reduced' accessor whose min and max are the coordinate's least and greatest values; an empty one raises |
| ChiWedges.ReRangeChi | src/PyHyperScattering/RSoXS.py:397-423 | an angle in range is kept; one below lands in (chiMin, chiMin + 360]; one above lands in [chiMax - 360, chiMax); the result always names the same direction |
| ChiWedges.ReRangeLandsInWideRange | src/PyHyperScattering/RSoXS.py:413-421 | when the chi range spans a full turn, the re-ranged angle lies inside it |
| ChiWedges.ReRangeAtWholeTurn | src/PyHyperScattering/RSoXS.py:413-421 | an angle a whole number of turns below chiMin goes to chiMin + 360, not to chiMin (and symmetrically above chiMax) |
| ChiWedges.SliceEnds | src/PyHyperScattering/RSoXS.py:43-65 | the shifted ends keep the width 2·chi_width and their directions; when both ends lie below the range, the end is moved by whole turns into (chiMin, chiMin + 360] as `_reRange_chi` would move it; when both lie above, the beginning is moved into [chiMax - 360, chiMax); the other end may stay outside the range (the wrap-around cases); otherwise both are unchanged |
| ChiWedges.SliceChi | src/PyHyperScattering/RSoXS.py:24-101 | one selector entry per chi value; the whole-range warning selects every value; a slice inside the range selects exactly the values within chi ± width |
| ChiWedges.SliceIsArcOnDegreeGrid | src/PyHyperScattering/RSoXS.py:43-96 | on a 359-degree chi grid, a wedge selects exactly the chi values whose direction lies on the arc chi ± width |
| ChiWedges.InSliceOnDegreeGrid | src/PyHyperScattering/RSoXS.py:67-96 | on that grid, the four selector cases agree with the arc between the shifted ends |
| ChiWedges.ResolveCenters | src/PyHyperScattering/RSoXS.py:227-267 | each of the three errors exactly when it occurs (an explicit centre with inference, no polarization dimension, a polarization count other than 1 or 2, with that count); centre 1 is 0, or the re-ranged given or first polarization value; centre 2 is the given or second polarization value, or else the re-ranged centre 1 - 90 |
| ChiWedges.CircularDiff | src/PyHyperScattering/RSoXS.py:280 | the smaller of the two floored residues, so it lies in [0, 180] |
| ChiWedges.CircularDiffSymmetric | src/PyHyperScattering/RSoXS.py:280 | the difference does not depend on the order of the centres |
| ChiWedges.CircularDiffOfSameAngles | src/PyHyperScattering/RSoXS.py:280 | centres naming the same directions have the same difference |
| ChiWedges.DefaultSecondCenterIsPerpendicular | src/PyHyperScattering/RSoXS.py:266-287 | a defaulted second centre is exactly 90 degrees from the first, so the angle warning (`AngleWarning`, RSoXS.py:283: not 90 ± 2 degrees apart) is never issued for it |
| ChiWedges.ReflectedCenterIsOpposite | src/PyHyperScattering/RSoXS.py:274-276 | a reflected centre is exactly 180 degrees from its centre |
| ChiWedges.ArCenters | src/PyHyperScattering/RSoXS.py:274-276 | two or four centres, the first two unchanged; each reflection is exactly `_reRange_chi(centre + 180)` and points 180 degrees from its centre |
| ChiWedges.WedgeChi | src/PyHyperScattering/RSoXS.py:101 | the chi values a wedge keeps are exactly the selected coordinate values, one per set selector entry |
| ChiWedges.SharedChi | src/PyHyperScattering/RSoXS.py:445 | the values one wedge's chi shares with the other's are exactly the common values, at most as many as the first wedge holds |
| ChiWedges.SharedOfWedges | src/PyHyperScattering/RSoXS.py:445 | over a chi coordinate without repeated values, the values two wedges share are exactly the chi values at the indices both selectors keep, in coordinate order |
| ChiWedges.OverlapCountsCommonIndices | src/PyHyperScattering/RSoXS.py:445-446 | `len(overlapping_values)` is the number of chi indices both wedges keep, so the warning fires exactly when more than one index is kept by both |
| ChiWedges.CombinationsFromExact | src/PyHyperScattering/RSoXS.py:444 | the generated pairs are exactly i ≤ p.0 < p.1 < n, each once, in lexicographic order |
| ChiWedges.Combinations | src/PyHyperScattering/RSoXS.py:444 | `itertools.combinations(range(n), 2)`: every pair p.0 < p.1 < n, once each, in order |
| ChiWedges.OverlappingPairs | src/PyHyperScattering/RSoXS.py:444-454 | a pair is warned about exactly when its wedges share more than one chi value |
| ChiWedges.OverlappingPairsOrdered | src/PyHyperScattering/RSoXS.py:444-454 | warnings keep the order in which the pairs are visited |
| ChiWedges.CheckChiOverlap | src/PyHyperScattering/RSoXS.py:425-454 | a pair of wedges is warned about exactly when it shares more than one chi value; each pair at most once, in visiting order |
| ChiWedges.PlanFor | src/PyHyperScattering/RSoXS.py:274-326 | two or four centres, each reflection exactly `_reRange_chi(centre + 180)`; one `slice_chi` wedge per centre; the angle warning iff the centres are not 90 ± 2 degrees apart (`AngleWarning`); an overlap warning for exactly the pairs sharing more than one chi value |
| ChiWedges.PlanAR | src/PyHyperScattering/RSoXS.py:177-326 | `AR` fails exactly when centre resolution fails, with the same error; otherwise its plan satisfies `Planned` for the resolved centres, which fixes every centre, wedge and warning |
| Hdr.GroupLevels | src/PyHyperScattering/HDR.py:28-31 | the grouping levels are exactly the level names other than `filenumber` and `exposure` |
| Hdr.GroupLevelsInOrder | src/PyHyperScattering/HDR.py:29-31 | the grouping levels keep the order they have among the index levels, which decides the level `hdr_recurse` splits on first |
| Hdr.SelectGroupingDims | src/PyHyperScattering/HDR.py:28-31 | the loop collects exactly `GroupLevels`, in index order |
| Hdr.Insert | src/PyHyperScattering/HDR.py:52 | inserting a label keeps the labels ascending and distinct, with exactly the old labels plus the new one |
| Hdr.SortedDistinct | src/PyHyperScattering/HDR.py:52 | the group labels are ascending, and are exactly the values that occur |
| Hdr.Members | src/PyHyperScattering/HDR.py:52 | a group holds exactly the frames whose level equals its label |
| Hdr.GroupBy | src/PyHyperScattering/HDR.py:52 | `groupby(dim)`: non-empty groups, labels strictly ascending, and every frame's value is some group's label |
| Hdr.GroupByPartitions | src/PyHyperScattering/HDR.py:52 | every frame lies in exactly one group, counted with multiplicity |
| Hdr.ScalePixel | src/PyHyperScattering/HDR.py:84-103 | a pixel is NaN exactly when the high mask or the low mask hits it; otherwise it times the exposure gives the raw count |
| Hdr.CutoffsAreKept | src/PyHyperScattering/HDR.py:85-92 | counts equal to a cutoff survive, because both comparisons are strict |
| Hdr.DefaultMaskKeeps | src/PyHyperScattering/HDR.py:17 | with the default parameters, a pixel survives exactly when 20 ≤ raw ≤ 45000 |
| Hdr.MaskFrame | src/PyHyperScattering/HDR.py:84-103 | masking in place: NaN exactly where either mask hits, and the scaled value elsewhere |
| Hdr.ScaleStack | src/PyHyperScattering/HDR.py:80-103 | each frame of the group is divided by its own exposure time and masked (`Work`): the evidently intended divisor, not the unstacked exposure level the code reads (see Findings) |
| Hdr.LabelLeaf | src/PyHyperScattering/HDR.py:109-111 | every grouping level takes the first frame's value; the rest of the context is kept |
| Hdr.HdrWork | src/PyHyperScattering/HDR.py:72-113 | with the dependency check asking for the module `skimage`: fails exactly when that check fails; otherwise returns the masked stack and the leaf's coordinates |
| Hdr.Leaves | src/PyHyperScattering/HDR.py:48-69 | the innermost groups the recursion reaches are non-empty, and hold only frames of the stack |
| Hdr.LeavesAgree | src/PyHyperScattering/HDR.py:48-69 | within an innermost group, all frames agree on every grouping level |
| Hdr.LeavesDistinct | src/PyHyperScattering/HDR.py:48-69 | two innermost groups differ in some grouping level |
| Hdr.LeavesPartition | src/PyHyperScattering/HDR.py:48-69 | every frame lies in exactly one innermost group |
| Hdr.AppendRows | src/PyHyperScattering/HDR.py:62-66 | a list of rows is appended item by item, and a single row is appended whole |
| Hdr.ExtendColumn | src/PyHyperScattering/HDR.py:57-61 | a list of coordinates is appended item by item, and a single value is appended whole |
| Hdr.AppendCoords | src/PyHyperScattering/HDR.py:56-61 | the `defaultdict(list)` gains every key of the child, and each column is extended by the child's values |
| Hdr.HdrRecurse | src/PyHyperScattering/HDR.py:45-69 | with the leaf returning its row and coordinates, and the check on `skimage`: fails exactly when that check fails; otherwise the rows are the innermost groups' stacks in recursion order, and each level's column holds each group's value |
| Hdr.RecurseOnGroups | src/PyHyperScattering/HDR.py:48-67 | the grouping branch returns a list result assembled from all the innermost groups under the split |
| Hdr.AccumulateGroups | src/PyHyperScattering/HDR.py:52-66 | after the loop, the accumulators hold the rows and index columns of every group's leaves, in group order |
| Hdr.ScaleAndMask | src/PyHyperScattering/HDR.py:17-42 | an empty stack or no grouping level gives an empty MultiIndex; without the module `skimage` it raises ImportError; otherwise one row per innermost group and one index column per grouping level |
| Hdr.DescribedColumnsParallel | src/PyHyperScattering/HDR.py:39-41 | every index column is as long as the list of rows |
| Hdr.DescribedEntriesUnique | src/PyHyperScattering/HDR.py:39-41 | no two rows get the same MultiIndex entry |
| Hdr.DescribedRowsAreGroups | src/PyHyperScattering/HDR.py:34-41 | every frame of row i carries row i's index entry, and every frame of the stack lies in exactly one row |
| Hdr.WorkAsWritten | src/PyHyperScattering/HDR.py:72-113 | the decorated `hdr_work`: ImportError exactly when the check fails; with the check passing, IndexError from the divisor of line 99 unless that divisor is fixed; with both fixed, the bare result and nothing else |
| Hdr.RecurseAsWrittenRaises | src/PyHyperScattering/HDR.py:45-69 | the recursion as written (`RecurseAsWritten`, with its group loop `GroupsAsWritten`) fails at its first leaf: ImportError when the check fails, IndexError when the divisor is not fixed; with both fixed, it raises as soon as there is a grouping level and returns a bare result when there is none |
| Hdr.ScaleAndMaskAsWrittenRaises | src/PyHyperScattering/HDR.py:17-42 | `scaleAndMask` as written (`ScaleAndMaskAsWritten`) raises on every stack: NameError when `close_mask` is set without scikit-image, ImportError when the check fails, IndexError from the divisor, and, with the check and the divisor both fixed, the failed unpacking of the leaf's bare result |
| Hdr.ScikitImageCheckRaises | src/PyHyperScattering/HDR.py:9-26 | the check as written asks for `scikit-image`, which never imports, so `scaleAndMask` raises NameError with `close_mask` and ImportError without it, on every non-empty stack, whatever the divisor |
| Hdr.UnstackedExposures | src/PyHyperScattering/HDR.py:81 | the divisors `hdr_work` reads are the group's distinct exposure times, ascending |
| Hdr.DivisorsAsWrittenMisaligned | src/PyHyperScattering/HDR.py:81-99 | indexing those divisors with three keys raises IndexError; and even as a plain array they match the frames' exposures exactly when these strictly increase along the stack |
| Hdr.DivisorsAsWrittenExample | src/PyHyperScattering/HDR.py:81-99 | frames exposed for 1 then 0.1 get the divisors 0.1 then 1; three frames with two exposure times get only two divisors |
| OptionalDeps.Lookup | src/PyHyperScattering/optional_dependencies.py:94 | a listed package gets its table entry; every other package, and only those, gets group and feature 'unknown' |
| OptionalDeps.InstallHint | src/PyHyperScattering/optional_dependencies.py:98 | the hint is `pyhyperscattering[<group>]`, and the group can be read back out of it |
| OptionalDeps.TableGroups | src/PyHyperScattering/optional_dependencies.py:8-57 | every listed package installs with one of the five extras groups |
| OptionalDeps.UnknownPackageHint | src/PyHyperScattering/optional_dependencies.py:94-98 | an unlisted package is pointed to `pyhyperscattering[unknown]` |
| OptionalDeps.DistributionNameNeverImports | src/PyHyperScattering/optional_dependencies.py:71-75 | when only module names import, checking for `scikit-image` always reports it missing |
| OptionalDeps.WarningFor | src/PyHyperScattering/optional_dependencies.py:119-125 | the warning names the package and its feature, and points to its group |
| OptionalDeps.Registry.constructor | src/PyHyperScattering/optional_dependencies.py:59 | a session starts with nothing warned about |
| OptionalDeps.Registry.WarnIfMissing | src/PyHyperScattering/optional_dependencies.py:111-126 | warns exactly when the package is missing and not yet warned about, then records it; afterwards a missing package is always recorded; each package is warned about at most once per session |
| OptionalDeps.Registry.CallRequiring | src/PyHyperScattering/optional_dependencies.py:92-107 | an installed package gives `func(args)` and changes nothing; a missing one raises ImportError naming the function and the group, and is warned about only on first use |

## Left out

- Output text is not modelled: the `print` calls, the report string of `AR`, and the wording of the warnings. The model keeps only the data each warning carries.
- Intensity arithmetic is not modelled: the wedge means, `AR`'s ratio and the `calc2d` / `two_AR` / `calc2d_norm_energy` branch. This includes the operator precedence of the reflected ratio at RSoXS.py:334. The model stops at the wedges and warnings `AR` settles first.
- `slice_q`, `select_chi`, `select_q`, `select_pol`, `collate_AR_stack` and `_checkAR` are thin `sel` wrappers, a stub or empty, and are not modelled.
- `ChiWedges.Init`: a DataArray with no chi coordinate is a `None` parameter; the `AttributeError` itself is not modelled.
- Python floats and NaN are not modelled: angles, level values and pixels are exact reals, and a masked pixel is `Masked` rather than NaN.
- `np.nanmedian` is not modelled: a leaf's row is its stack of scaled and masked frames, which the median would reduce.
- `close_mask=True` (scikit-image `binary_closing` of both masks) is not modelled, and neither is the module-level scikit-image import. The model's masks are the bare threshold masks.
- The corrected operations take the dependency check on the module `skimage` as the parameter `skimage` (`ScaleAndMask` reads it from `installed`); `close_mask`, and so the corrected `warnings` fallback, is not part of them. The as-written members keep the check on `scikit-image` and the `NameError` (see Findings).
- `OptionalDeps.ModuleNamesOnly`: a stray file named `scikit-image.py` on the import path would import under that name; such an environment is not modelled.
- `Hdr.ScaleAndMask` requires an `exposure` level with positive values on every frame:
  - a stack without one raises `KeyError` in `hdr_work`;
  - a zero exposure gives infinities in numpy;
  - neither is modelled.
- `Hdr.ScaleAndMask`: an empty stack, and a stack with no grouping level, are both modelled as the single error `EmptyIndex`, the empty MultiIndex that pandas refuses.
- Level values are reals: string levels such as sample names, and the order `groupby` puts them in, are not modelled.
- The MultiIndex level order follows the dict's insertion order and is not modelled; the index is a map from level name to column.
- `Hdr.RecurseAsWrittenRaises`: the error `NotAPair` covers both ways the bare result fails:
  - unpacking it as a pair raises when the detector image does not have exactly two rows;
  - when it does, the following `.keys()` or `.values()` call on the DataArray raises instead.
- SharedChi: a chi coordinate with repeated values makes xarray's alignment raise instead of counting; the model does not reject such a coordinate, and the count is proved only for distinct chi values (`SharedOfWedges`, `OverlapCountsCommonIndices`).
- `CheckChiOverlap`: `tolerance` is accepted and, as in the source, not consulted; the threshold is the literal "more than one".
- `OptionalDeps.Registry`: `installed` is fixed for the whole session, as `importlib.import_module` is outside the model.
- `check_optional_dependency` (optional_dependencies.py:61-75) is that predicate, and is not modelled separately.
- `PlotTools.py` and `__init__.py` are not part of this model.

## Findings

| source | as written | input that shows it | evidently intended | confidence | as-written member | corrected member |
|---|---|---|---|---|---|---|
| src/PyHyperScattering/HDR.py:45-69, 72-113 | The leaf branch of `hdr_recurse` returns `hdr_work`'s single DataArray. The caller unpacks every result as `(data_rows, dest_coords)`, and `hdr_work` writes the leaf's level values into a copy that is discarded. | With the dependency check and the divisor both corrected (the next two rows; with the check alone corrected, line 99 raises first), any stack, e.g. two frames that differ only in `energy`. The first leaf's result is unpacked as a pair and `scaleAndMask` raises. | The leaf returns its row together with its level values. The parent appends both, giving one row and one MultiIndex entry per innermost group. | not executed | Hdr.ScaleAndMaskAsWrittenRaises | Hdr.ScaleAndMask |
| src/PyHyperScattering/HDR.py:9, 24-26, 72 | `check_optional_dependency('scikit-image')` (optional_dependencies.py:71-75) imports the distribution name, which is no module, so `HAS_SKIMAGE` and the decorator's check are always false. With the default `close_mask=True`, the fallback then calls `warnings`, which HDR.py never imports. | Any non-empty stack with scikit-image installed: `scaleAndMask` raises NameError, or ImportError with `close_mask=False`. | The check asks for `skimage`, and `warnings` is imported. | not executed | Hdr.ScikitImageCheckRaises | Hdr.ScaleAndMask |
| src/PyHyperScattering/HDR.py:81, 99 | The divisors are the unstacked `exposure` level: the group's distinct exposure times, ascending. xarray refuses the three-key index `[:, np.newaxis, np.newaxis]` on this one-dimensional coordinate. | Any group. Even read as a plain array: frames exposed for 1 then 0.1 are divided by 0.1 then 1, and three frames with two exposure times get two divisors. | Each frame is divided by its own exposure time. | not executed | Hdr.DivisorsAsWrittenMisaligned | Hdr.ScaleStack |
