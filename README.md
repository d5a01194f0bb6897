# Dry-gully site screening and overlap elimination, modelled in Dafny

This project models the decision logic of two ArcGIS scripts. Together they
find prospective dry-gully reservoir sites for off-river pumped hydro.

- **`screen()` in DryGully.py** walks the pour points. For each point it does
  one of four things:
  - skips it: out of `screenrange`, empty watershed, or too few reservoir
    cells;
  - logs an engine error and moves on;
  - stops the whole batch on an uncaught exception;
  - records the site. A record has the ordered `fieldlot` attributes written
    onto `RES_<id>` and a ten-column row of `records.csv`.
- **`removal()` in PrettySet.py** removes the worse of every pair of nearby,
  overlapping reservoirs, judged by water/rock ratio. It then pairs each
  survivor with its `DAM_` feature by name suffix.
- **The list logic of `resdamcr8()`:** the suffix assertion, the field
  allow-list, and the module-level `residx`/`damidx` checks.

The engine's results are inputs to the model:
- raster statistics, polygon areas and lengths, and cursor rows are fields of
  `Screening.PointData`;
- the intersection test is an `Overlap.Oracle` over feature-class names;
- `cos(radians(x))` and `cos(atan(x))` are abstract functions in
  `Screening.Trig`.

What each module holds:
- `Text` models the string handling: `str()` of a non-negative integer,
  `int()` on digit strings, `split("_")`, and the last field after `_`.
- `Overlap` models the scan of `removal()`:
  - as recursive functions (`ScanInner`, `ScanOuter`, `Removed`);
  - as imperative methods over arrays that are proved equal to them (`Scan`,
    `ScanPartners`);
  - plus `resl` via `list.index` semantics, and `daml` by nested loops
    (`PairDams`, `MatchDams`).
- `PrettySet` holds the module-level checks, `idxrmvl`, `removal()` as a
  whole (`Removal`, which can raise on `idxrmvl` before `resl` is built), the
  `DropField` filter, `int(float())` truncation, and the per-site loop of
  `resdamcr8()`.
- `Screening` holds:
  - the outcome of one point (`Evaluate`/`Measure` as specification,
    `ScreenPoint`/`MeasureSite` as the imperative body that appends to and
    patches `fieldlot`);
  - the metric formulas with their unit conversions;
  - the whole batch (`ScreenAll`, `Ledger`, `Screen`).

How the code differs from what its comments intend (the model follows the code):
- **A failed single-part assertion ends the batch.** The header of DryGully.py
  (line 5) says the exception handling is there to escape from any unexpected
  interruption, and the except clauses at DryGully.py:166-172 log and
  `continue`. But the `assert` at DryGully.py:83 raises
  AssertionError, and the except clauses catch only `arcpy.ExecuteError` and
  `RuntimeError`. So the loop ends there, and no later point is screened.
  `Screening.Abort`, `ScreenAll` and `TiedPartsEndBatch` model this. The same
  would hold for a ZeroDivisionError at DryGully.py:110 or 141. Only the
  abstract cosines of the model can raise it (see "Left out").
- **The reservoir volume uses `reservoir.mean`.** It is measured from the mean
  elevation of the reservoir raster (DryGully.py:115). Dam area and volume are
  measured from `dam.mean` (DryGully.py:141, 145).

## Model

| member | source | states |
|---|---|---|
| Text.Decimal | DryGully.py:164 | str(n) is a non-empty string of decimal digits, with no leading zero unless n is 0 |
| Text.ParseNat | PrettySet.py:28 | int(s) succeeds exactly when s is a non-empty string of digits |
| Text.ParseDecimal | PrettySet.py:28 | int(str(n)) == n |
| Text.Split | PrettySet.py:28 | split("_") yields at least one piece, and no piece contains '_' |
| Text.JoinSplit | PrettySet.py:28 | "_".join(s.split("_")) == s: splitting loses nothing |
| Text.SplitPlain | PrettySet.py:97 | a string without '_' splits into itself |
| Text.SplitJoined | PrettySet.py:97 | a + "_" + b splits into the pieces of a followed by the pieces of b |
| Text.FieldAfterLastSeparator | PrettySet.py:97 | split("_")[-1] of prefix + "_" + tail is tail when tail has no '_' |
| Text.LastFieldIsSuffix | PrettySet.py:97 | split("_")[-1] is the longest suffix without '_': a suffix of the name, free of '_', and either the whole name or preceded by '_' |
| Text.ParseFeatureName | PrettySet.py:28-29 | int(name.split("_")[-1]) recovers id from the "RES_"/"DAM_" + str(id) names the screener writes |
| Overlap.Abs | PrettySet.py:62 | abs() is non-negative and equals x or -x |
| Overlap.RemovalSound | PrettySet.py:42-86 | rmvl holds valid, distinct positions; each removed site lost a resolved conflict (to an earlier site with ratio >=, or a later one with ratio >); no two survivors are within 0.02 degrees and overlapping |
| Overlap.UnconflictedSiteKept | PrettySet.py:62-86 | a site in conflict with no other site is never removed |
| Overlap.FarSiteKept | PrettySet.py:62-63 | a site more than 0.02 degrees of latitude or longitude from every other site is never removed |
| Overlap.DisjointSiteKept | PrettySet.py:71-72 | a site whose intersection with every other site is empty is never removed |
| Overlap.InnerFacts | PrettySet.py:46-86 | the inner scan of site i (ScanInner) only appends to rmvl, keeps it distinct and justified, and if i survives leaves it in conflict with no later survivor |
| Overlap.OuterFacts | PrettySet.py:43-86 | the outer scan (ScanOuter, and so Removed) only appends to rmvl and ends with a distinct, justified, conflict-free removal list |
| Overlap.NoConflictNoRemoval | PrettySet.py:42-86 | with no conflicting pair at all, rmvl stays empty |
| Overlap.ExampleLowerRatioRemoved | PrettySet.py:80-86 | of two overlapping sites the one with the lower water/rock ratio is removed, whichever comes first |
| Overlap.ExampleTieKeepsEarlier | PrettySet.py:80-81 | on equal ratios the later site j is removed and i is kept |
| Overlap.ExampleFarPairKept | PrettySet.py:62-63 | sites 0.5 degrees apart are both kept even if the oracle says they overlap |
| Overlap.Kept | PrettySet.py:93 | the kept positions are in range, not removed, and strictly ascending |
| Overlap.KeptComplete | PrettySet.py:93 | every position not in rmvl is kept |
| Overlap.Survivors | PrettySet.py:93 | the surviving sites form a well-formed site list |
| Overlap.RemovalIdempotent | PrettySet.py:43-93 | running removal() again on the survivors removes nothing |
| Overlap.FirstIndex | PrettySet.py:93 | resfc.index(x) is the first position holding x |
| Overlap.FirstIndexOfUnique | PrettySet.py:93 | with distinct names, resfc.index(resfc[k]) == k |
| Overlap.ResListMembers | PrettySet.py:93 | the comprehension ResList keeps a name exactly when it is in resfc and its first occurrence, resfc.index(x), is not in rmvl |
| Overlap.ResListIsSurvivors | PrettySet.py:93 | with distinct names, resl is resfc with the removed positions deleted, in the original order |
| Overlap.Matching | PrettySet.py:96-98 | every dam collected for y carries y's suffix |
| Overlap.MatchingUnique | PrettySet.py:96-98 | with unique dam suffixes and a dam for y's suffix, exactly one dam is collected for y |
| Overlap.DamsAligned | PrettySet.py:94-99 | with unique dam suffixes that cover the survivors, len(daml) == len(resl) and daml[k] has resl[k]'s suffix |
| Overlap.Scan | PrettySet.py:42-86 | the nested loop with continue/break leaves rmvl equal to the specification Removed |
| Overlap.ScanPartners | PrettySet.py:46-86 | the inner loop over j > i equals ScanInner, including the early break when i loses |
| Overlap.MatchDams | PrettySet.py:96-98 | the inner loop over damfc appends exactly the dams with y's suffix, in order |
| Overlap.PairDams | PrettySet.py:94-98 | the nested loop builds daml equal to its specification DamsFor |
| PrettySet.Indices | PrettySet.py:28-29 | residx/damidx exist exactly when every name's last field parses, and then hold those numbers in order |
| PrettySet.MissingFrom | PrettySet.py:30-35 | the reported ids are exactly those of one list absent from the other |
| PrettySet.CheckInputs | PrettySet.py:28-37 | a name that int() rejects stops the script; otherwise the length assertion decides, the "Check DAM_" list is the residx ids absent from damidx and the "Check RES_" list the damidx ids absent from residx, both reported whether or not the length assertion then fails; a passing check carries residx and damidx as parsed |
| PrettySet.ExampleMissingPartner | PrettySet.py:28-37 | RES_1 beside DAM_2 passes the length assertion, and both ids are reported missing their partner |
| PrettySet.IndicesOfFeatureNames | PrettySet.py:28-29 | parsing names built from ids gives the ids back |
| PrettySet.ScreenedNamesPass | PrettySet.py:28-37 | RES_/DAM_ feature classes written for the same ids pass the module-level checks with nothing reported missing |
| PrettySet.RemovedIds | PrettySet.py:88 | idxrmvl takes the second "_"-field (split("_")[1], not [-1]) of each removed name; when every such field parses it has one id per removed position |
| PrettySet.SecondFieldOfFeatureName | PrettySet.py:88 | for prefix_str(id) with a plain prefix, int(split("_")[1]) is id and agrees with int(split("_")[-1]) |
| PrettySet.ExampleDoubleSeparator | PrettySet.py:88 | for "RES__1" the two differ: int(split("_")[1]) raises on the empty field while int(split("_")[-1]) is 1 |
| PrettySet.RemovedIdsOfFeatureNames | PrettySet.py:88 | for RES_<id> names, idxrmvl lists the ids at the removed positions |
| PrettySet.DropFields | PrettySet.py:145-148 | a field is dropped exactly when it is in AllField and not in FieldList; no allow-listed field is dropped |
| PrettySet.DropFieldsAppend | PrettySet.py:148 | dropping distributes over concatenation, so the dropped fields keep their AllField order |
| PrettySet.TruncateTowardZero | PrettySet.py:135 | int(float(v)) truncates toward zero: for v >= 0 it is the floor, for v < 0 the ceiling |
| PrettySet.Removal | PrettySet.py:40-101 | removal() computes rmvl as specified (positions in range), then idxrmvl; when int() raises there it ends with RemovedIdRaised before resl exists, otherwise resl and daml are as specified and the result is Unpaired exactly when len(resl) != len(daml) |
| PrettySet.FirstMisaligned | PrettySet.py:109-110 | the first k whose suffixes differ: all before it agree, and it disagrees if in range |
| PrettySet.FirstHalt | PrettySet.py:109-166 | the first k whose suffix assertion fails or whose try block raises something other than arcpy.ExecuteError: no site before it ends the run, and it does if in range |
| PrettySet.FirstHaltBounds | PrettySet.py:109-166 | the run never gets past the first suffix mismatch, and without an uncaught exception it ends exactly there |
| PrettySet.ResDamCr8 | PrettySet.py:109-166 | the loop handles sites up to the first halt and reports why it stopped (a suffix mismatch, checked first, or an uncaught exception); each handled site is assembled with DropFields of its merged fields, or logged as failed after arcpy.ExecuteError |
| PrettySet.PairedListsNeverStop | PrettySet.py:94-166 | fed removal()'s lists under unique dam suffixes covering the survivors, the suffix assertion never fails, and with no uncaught exception every site is handled |
| Screening.SquareMetresToHectares | DryGully.py:109 | the x10^-4 factor turns square metres into hectares |
| Screening.HectareMetresToGigalitres | DryGully.py:115 | the x10^-2 factor turns hectare-metres into gigalitres |
| Screening.CubicMetresToGigalitres | DryGully.py:145 | the x10^-6 factor turns cubic metres into gigalitres |
| Screening.VolumeUnitsAgree | DryGully.py:109-145 | the hectare route (x10^-4 then x10^-2) and the cubic-metre route (x10^-6) to gigalitres agree |
| Screening.InRangeIsRangeMembership | DryGully.py:27-31 | InRange(range(lo, hi), id) holds exactly when id is in the list range(lo, hi), so a point is skipped exactly when `idx[0] not in screenrange` |
| Screening.Sum | DryGully.py:59-60 | with non-negative COUNT values the cell total is non-negative and at least every single count |
| Screening.Max | DryGully.py:79 | max() is one of the areas and at least every area |
| Screening.PartsOfArea | DryGully.py:80-82 | the parts selected by the area where-clause all have that area |
| Screening.KeptParts | DryGully.py:76-82 | one part or none is left as it is; with more parts only parts of the maximal area are kept, never more than there were |
| Screening.TiedLargestPartsKept | DryGully.py:76-83 | two parts of equal maximal area both survive, so the single-part assertion fails |
| Screening.UniqueLargestPartKept | DryGully.py:76-83 | a strictly largest part (or a single part) is the one part kept |
| Screening.ExampleLargestPart | DryGully.py:76-83 | parts of 5, 50 and 12 leave the 50 part alone |
| Screening.GroundAreaHa | DryGully.py:110 | ground area equals water area when the mean slope is 0, and is water area / cos(slope) otherwise |
| Screening.StorageGL | DryGully.py:115 | storage in GL is water area (ha) times depth (m) over 100 |
| Screening.DamAreaHa | DryGully.py:141 | dam area times cos(atan(batter)) is length times head in hectares |
| Screening.DamVolumeGL | DryGully.py:145 | dam volume is length x head^2 x batter in gigalitres |
| Screening.WaterRockRatio | DryGully.py:155 | wrratio is 0 for a zero dam volume, and otherwise wrratio x damvolume == resvolume |
| Screening.Fieldlot | DryGully.py:87-156 | ten attributes in the fixed order Lat, Long, Elevation_m, ..., Water_rock_ratio |
| Screening.Row | DryGully.py:86-177 | the ledger row: RES_<id>, the coordinates, elevpoint, waterarea x 10^4 == projected area, ground area, dam area and volume by their formulas, resvolume x 100 == waterarea x reservoir head + 50 x damvolume (half the dam volume added), and wrratio x damvolume == resvolume (0 for a zero dam volume) |
| Screening.EvaluateOutcomes | DryGully.py:25-172 | OutOfRange exactly outside screenrange; EmptyWatershed exactly in range, past the early engine calls, with minimum None; TooFewCells carries Sum < minrescells; Failed names the faulting stage; Aborted only for a part count other than one or a zero cosine, past the cell test; a point in range with no engine error, a minimum, enough cells, one part and non-zero cosines is Recorded, and a record needs all of that |
| Screening.Measure | DryGully.py:85-164 | after part selection: an engine error is a failure at its stage; a zero cosine aborts; otherwise a record whose row is the formulas' row |
| Screening.ExampleTooFewCells | DryGully.py:59-65 | under the Interface.py settings, 110 cells is a TooFewCells skip |
| Screening.TiedPartsAbort | DryGully.py:76-83 | a point past the cell test with two tied largest parts ends in an AssertionError with at least two parts left |
| Screening.Patch | DryGully.py:150-152 | the enumerate loop replaces exactly the entries named Reservoir_volume_GL; every other entry and the order and length are unchanged |
| Screening.ScreenPoint | DryGully.py:25-83 | the loop body with its early continues computes Evaluate |
| Screening.MeasureSite | DryGully.py:85-164 | fieldlot built append by append, holding the uncorrected volume, with the correction patched in, equals Fieldlot of the ledger row |
| Screening.ReservoirVolume | DryGully.py:109-155 | the recorded volume is waterarea * (elevpoint + maxdamheight - reservoir.mean) * 10^-2 plus half of damlength * (elevpoint + maxdamheight - dam.mean)^2 * 10^-6 * dambatter, with waterarea in hectares, and the recorded wrratio is computed from that corrected volume |
| Screening.FieldlotMatchesLedger | DryGully.py:87-177 | fieldlot has the ten names in order, Reservoir_volume_GL carries the corrected volume of the ledger row, the row is named RES_<id> and carries the point's coordinates |
| Screening.LedgerAppend | DryGully.py:175-177 | the ledger of concatenated outcomes is the concatenation of their ledgers |
| Screening.ScreenAllUnfold | DryGully.py:23-25 | up to the first abort, the batch splits into the outcomes of its parts |
| Screening.ScreenAllSingle | DryGully.py:23-25 | screening one more point after unaborted ones appends that point's outcome |
| Screening.Screen | DryGully.py:16-177 | the loop over the cursor yields ScreenAll's outcomes and appends exactly their rows to the ledger, stopping after an uncaught exception |
| Screening.ScreenAllShape | DryGully.py:23-172 | outcome k belongs to point k; only an uncaught exception ends the batch early, and it is then the last outcome |
| Screening.ScreenAllNoAbort | DryGully.py:23-25 | without an uncaught exception every point gets an outcome |
| Screening.TiedPartsEndBatch | DryGully.py:23-83 | the first point with tied largest parts ends the batch: its AssertionError is the last outcome and no later point is screened |
| Screening.OutOfRangeLeavesNoRow | DryGully.py:27-31 | dropping a point outside screenrange from the cursor leaves the ledger unchanged |
| Screening.LedgerRowsRecorded | DryGully.py:166-177 | every ledger row comes from a point recorded with that row and its fieldlot, so never from a skipped, failed or aborted point |

## Left out

- Engine calls are inputs, not models: Watershed, ExtractByMask, ExtractByAttributes, RasterToPolygon, Project, Intersect, Buffer, Erase, AddField, CalculateField, Merge, DeleteField, SmoothPolygon, LayerToKML. Their results are fields of `PointData`, the overlap `Oracle`, or the `faults` and `mergedFields` inputs of `ResDamCr8`. An engine error is modelled as the first stage that raises, in `PointData.fault`.
- PrettySet.Removal: engine and cursor errors inside removal()'s scan are not modelled. These are an arcpy.ExecuteError from Intersect_analysis (PrettySet.py:66), a RuntimeError from a SearchCursor (PrettySet.py:51, 56, 67) and a ValueError from float() of LAT or LONG (PrettySet.py:53-59). removal() has no try block, and the call at PrettySet.py:107 is outside resdamcr8()'s per-site try, so each of them ends the run before resl exists. The model's `Overlap.Oracle` always answers and `Removal` always returns.
- Screening.Screen: the engine calls before the loop's try block (DryGully.py:17-21: the extent setting, GetCount and the outer SearchCursor over the pour points) are not modelled. An error there ends the run before any point is screened. The model starts from the cursor's points as a given sequence.
- Raster and cursor semantics are not modelled:
  - the `VALUE <=` extraction threshold;
  - the `SHAPE_AREA = <max>` where-clause, which compares the float printed by str() against the stored area; `PartsOfArea` uses exact equality;
  - `None` results other than the watershed minimum;
  - StopIteration from an empty cursor.
- The processing-extent changes (DryGully.py:19, 34, 46) are left out. They are ambient engine state and do not affect the decisions.
- The CSV append (DryGully.py:175-177) is I/O. The model keeps only the row. The `coordinates` column is the pair (latitude, longitude), not the string str(latitude) + "   " + str(longitude) (three spaces).
- Floating point is not modelled. All quantities are exact reals. `cos` and `atan` are abstract (`Screening.Trig`). So both `cos(radians(resslope.mean))` and `cos(atan(dambatter))` may be 0 in the model, and the model then aborts with `ZeroDivision`. `math.cos` of a finite double never returns 0.0, so in the scripts these two aborts cannot happen.
- `round(..., 1)` on Dam_area_ha and Dam_volume_GL (PrettySet.py:137) is floating-point presentation and is not modelled. `int(float())` is modelled on reals.
- The text that CalculateField writes is not modelled: str(f[1]) in screen(), and the '"{0}"'.format(...) expressions in resdamcr8(). The Index values of resdamcr8() are carried as the names `resIndex` and `damIndex` of `SiteResult.Assembled`. How numbers are printed as text is engine-side.
- PrettySet.ResDamCr8: the work a site's try block completed before an uncaught exception (the intermediate feature classes, the fields already written) is not modelled; that site yields no result and the run ends.
- Text.ParseNat: accepts digit strings only. Python's int() also accepts a sign and surrounding whitespace, which names built by the screener never contain.
- Overlap.Oracle: not required to be symmetric. No proof needs it, so the results hold for any intersection test.
- Print statements, timing, the Spatial Analyst licence checkout, workspace setup, `parallelProcessingFactor`, and the `__main__` launchers are left out, as is the unlink of records.csv in Interface.py.
- PinkMap.py and Interface.py are not part of this model. Interface.py's settings (40 m, 111 cells, batter 1, "All") appear only as `Screening.Defaults`.
