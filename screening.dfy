/** screen() of DryGully.py: for each pour point, decide whether it is out
    of range, has an empty watershed, has too few reservoir cells, fails in
    the engine, or yields a site record (the fieldlot attributes of the
    reservoir feature and a row of the records.csv ledger). The engine's
    results for a point are given as data. */
module Screening {
  import opened Text

  /** screenrange: "All", or range(lo, hi) of OBJECTIDs. */
  datatype ScreenRange = All | Between(lo: int, hi: int)

  predicate InRange(range: ScreenRange, id: nat)
  {
    match range
    case All => true
    case Between(lo, hi) => lo <= id < hi
  }

  /** range(lo, hi) as the list Python 2 builds: lo, lo + 1, ..., hi - 1. */
  function PyRange(lo: int, hi: int): (xs: seq<int>)
    decreases hi - lo
  {
    if lo >= hi then [] else [lo] + PyRange(lo + 1, hi)
  }

  /** `idx[0] not in screenrange` for screenrange = range(lo, hi) is exactly
      the negation of InRange. */
  lemma {:induction false} InRangeIsRangeMembership(lo: int, hi: int, id: nat)
    ensures InRange(Between(lo, hi), id) <==> id in PyRange(lo, hi)
    decreases hi - lo
  {
    if lo < hi {
      InRangeIsRangeMembership(lo + 1, hi, id);
    }
  }

  datatype Params = Params(maxdamheight: real, minrescells: int, dambatter: real, screenrange: ScreenRange)

  /** The settings Interface.py ships: 40 m dams, at least 111 cells (10 ha),
      a 1:1 batter, every pour point. */
  const Defaults: Params := Params(40.0, 111, 1.0, All)

  /** math.cos(math.radians(x)) and math.cos(math.atan(x)), left abstract. */
  datatype Trig = Trig(cosDegrees: real -> real, cosAtan: real -> real)

  /** The engine calls of screen(), grouped in the order it makes them. */
  datatype Stage =
    | SelectPoint       // feature layer, copy and coordinate cursor of the point
    | Delineate         // Watershed and ExtractByMask of the DEM
    | ExtractReservoir  // ExtractByAttributes and the COUNT cursor
    | Polygonize        // RasterToPolygon of watershed and reservoir
    | SelectPart        // part count, SHAPE_AREA cursor, copy of the largest part
    | MeasureReservoir  // slope extraction, projection, projected area cursor
    | BuildDam          // Intersect, projection, length cursor, dam extraction
    | WriteFields       // AddField, CalculateField, CopyFeatures to RES_<id>

  /** What the engine yields for one pour point. */
  datatype PointData = PointData(
    id: nat,                // OBJECTID
    fault: Option<Stage>,   // the stage whose engine call raises ExecuteError or RuntimeError, if one does
    lat: real,              // POINT_Y
    lon: real,              // POINT_X
    minimum: Option<real>,  // watershed.minimum, None for an empty watershed
    counts: seq<int>,       // the COUNT column of the reservoir raster
    partAreas: seq<real>,   // SHAPE_AREA of each part of the reservoir polygon
    projectedArea: real,    // SHAPE_AREA of the projected reservoir, square metres
    slopeMean: real,        // resslope.mean, degrees
    reservoirMean: real,    // reservoir.mean, metres
    damLength: real,        // SHAPE_LENGTH of the projected dam, metres
    damMean: real)          // dam.mean, metres

  /** One (name, value) entry of fieldlot. */
  datatype Field = Field(name: string, value: real)

  /** The ten columns written to records.csv, in order. */
  datatype LedgerRow = LedgerRow(
    name: string,
    coordinates: (real, real),
    elevation: real,
    waterArea: real,
    groundArea: real,
    resVolume: real,
    damLength: real,
    damArea: real,
    damVolume: real,
    wrRatio: real)

  /** Exceptions that no except clause of screen() catches: they end the batch. */
  datatype Abort =
    | PartCount(parts: nat)  // AssertionError: not exactly one reservoir part
    | ZeroDivision           // ZeroDivisionError from a zero cosine

  datatype Outcome =
    | OutOfRange
    | EmptyWatershed
    | TooFewCells(cells: int)
    | Failed(stage: Stage)
    | Aborted(reason: Abort)
    | Recorded(fieldlot: seq<Field>, row: LedgerRow)

  // ---------------------------------------------------------------------
  // Units.
  // ---------------------------------------------------------------------

  /** pow(10, -4): square metres to hectares. */
  function SquareMetresToHectares(a: real): (ha: real)
    ensures ha * 10000.0 == a
  {
    a * 0.0001
  }

  /** pow(10, -2): hectare-metres to gigalitres. */
  function HectareMetresToGigalitres(v: real): (gl: real)
    ensures gl * 100.0 == v
  {
    v * 0.01
  }

  /** pow(10, -6): cubic metres to gigalitres. */
  function CubicMetresToGigalitres(v: real): (gl: real)
    ensures gl * 1000000.0 == v
  {
    v * 0.000001
  }

  /** The two routes from an area in square metres and a depth in metres to
      gigalitres agree: one hectare-metre is 10^4 cubic metres. */
  lemma VolumeUnitsAgree(area: real, depth: real)
    ensures HectareMetresToGigalitres(SquareMetresToHectares(area) * depth) == CubicMetresToGigalitres(area * depth)
  {
  }

  // ---------------------------------------------------------------------
  // Cell count and largest-part selection.
  // ---------------------------------------------------------------------

  /** sum([c[0] for c in cursor]). */
  function Sum(xs: seq<int>): (s: int)
    ensures (forall k :: 0 <= k < |xs| ==> xs[k] >= 0) ==> s >= 0 && forall k :: 0 <= k < |xs| ==> xs[k] <= s
  {
    if xs == [] then 0 else xs[0] + Sum(xs[1..])
  }

  /** max([a[0] for a in cursor]). */
  function Max(xs: seq<real>): (m: real)
    requires |xs| > 0
    ensures m in xs && forall k :: 0 <= k < |xs| ==> xs[k] <= m
  {
    if |xs| == 1 then xs[0]
    else
      var rest := Max(xs[1..]);
      if xs[0] >= rest then xs[0] else rest
  }

  /** The parts whose area equals v, in order. */
  function PartsOfArea(areas: seq<real>, v: real): (r: seq<real>)
    ensures forall k :: 0 <= k < |r| ==> r[k] == v
    ensures |r| <= |areas|
  {
    if areas == [] then []
    else (if areas[0] == v then [areas[0]] else []) + PartsOfArea(areas[1..], v)
  }

  /** The parts left when screen() reaches `assert GetCount == 1`: with more
      than one part, only those whose area equals the maximum. */
  function KeptParts(areas: seq<real>): (r: seq<real>)
    ensures |areas| <= 1 ==> r == areas
    ensures |areas| > 1 ==> |r| <= |areas| && forall k :: 0 <= k < |r| ==> r[k] == Max(areas)
  {
    if |areas| > 1 then PartsOfArea(areas, Max(areas)) else areas
  }

  lemma {:induction false} PartsOfAreaCount(areas: seq<real>, v: real, i: nat, j: nat)
    requires i < j < |areas| && areas[i] == v && areas[j] == v
    ensures |PartsOfArea(areas, v)| >= 2
  {
    if i == 0 {
      PartsOfAreaPresent(areas[1..], v, j - 1);
    } else {
      PartsOfAreaCount(areas[1..], v, i - 1, j - 1);
    }
  }

  lemma {:induction false} PartsOfAreaPresent(areas: seq<real>, v: real, i: nat)
    requires i < |areas| && areas[i] == v
    ensures |PartsOfArea(areas, v)| >= 1
  {
    if i > 0 {
      PartsOfAreaPresent(areas[1..], v, i - 1);
    }
  }

  lemma {:induction false} PartsOfAreaUnique(areas: seq<real>, v: real, i: nat)
    requires i < |areas| && areas[i] == v
    requires forall k :: 0 <= k < |areas| && k != i ==> areas[k] != v
    ensures PartsOfArea(areas, v) == [v]
  {
    if i == 0 {
      PartsOfAreaAbsent(areas[1..], v);
    } else {
      assert areas[0] != v;
      PartsOfAreaUnique(areas[1..], v, i - 1);
    }
  }

  lemma {:induction false} PartsOfAreaAbsent(areas: seq<real>, v: real)
    requires forall k :: 0 <= k < |areas| ==> areas[k] != v
    ensures PartsOfArea(areas, v) == []
  {
    if areas != [] {
      PartsOfAreaAbsent(areas[1..], v);
    }
  }

  /** Two parts of equal maximal area both survive the selection, so the
      assertion that one part remains fails. */
  lemma TiedLargestPartsKept(areas: seq<real>, i: nat, j: nat)
    requires i < j < |areas| && areas[i] == areas[j]
    requires forall k :: 0 <= k < |areas| ==> areas[k] <= areas[i]
    ensures |KeptParts(areas)| >= 2
  {
    var m := Max(areas);
    assert m == areas[i];
    PartsOfAreaCount(areas, m, i, j);
  }

  /** A strictly largest part is the one part kept. */
  lemma UniqueLargestPartKept(areas: seq<real>, i: nat)
    requires i < |areas|
    requires forall k :: 0 <= k < |areas| && k != i ==> areas[k] < areas[i]
    ensures KeptParts(areas) == [areas[i]]
  {
    if |areas| > 1 {
      var m := Max(areas);
      assert m == areas[i];
      PartsOfAreaUnique(areas, m, i);
    }
  }

  /** Parts of 5, 50 and 12 ha: the 50 ha part alone remains. */
  lemma ExampleLargestPart()
    ensures KeptParts([5.0, 50.0, 12.0]) == [50.0]
  {
    UniqueLargestPartKept([5.0, 50.0, 12.0], 1);
  }

  // ---------------------------------------------------------------------
  // The formulas, for a point that gets past the last abort check.
  // ---------------------------------------------------------------------

  /** The cosines screen() divides by are non-zero. */
  predicate Divisible(p: PointData, params: Params, trig: Trig)
  {
    (p.slopeMean != 0.0 ==> trig.cosDegrees(p.slopeMean) != 0.0) && trig.cosAtan(params.dambatter) != 0.0
  }

  /** The height of the top water level above a reference elevation. */
  function Head(elevpoint: real, params: Params, reference: real): real
  {
    elevpoint + params.maxdamheight - reference
  }

  /** Ground area (ha): the water area spread over a surface of the mean
      slope, unchanged when the slope is zero. */
  function GroundAreaHa(waterarea: real, slope: real, trig: Trig): (g: real)
    requires slope != 0.0 ==> trig.cosDegrees(slope) != 0.0
    ensures slope == 0.0 ==> g == waterarea
    ensures slope != 0.0 ==> g * trig.cosDegrees(slope) == waterarea
  {
    if slope != 0.0 then waterarea / trig.cosDegrees(slope) else waterarea
  }

  /** Storage (GL) of a water area (ha) filled to a depth (m). */
  function StorageGL(waterarea: real, depth: real): (v: real)
    ensures v * 100.0 == waterarea * depth
  {
    HectareMetresToGigalitres(waterarea * depth)
  }

  /** Inside area (ha) of a dam of a length (m) and head (m): the vertical
      face divided by cos(atan(batter)). */
  function DamAreaHa(damlength: real, damhead: real, batter: real, trig: Trig): (a: real)
    requires trig.cosAtan(batter) != 0.0
    ensures a * trig.cosAtan(batter) * 10000.0 == damlength * damhead
  {
    SquareMetresToHectares(damlength * damhead) / trig.cosAtan(batter)
  }

  /** Embankment volume (GL): length times head squared times batter. */
  function DamVolumeGL(damlength: real, damhead: real, batter: real): (v: real)
    ensures v * 1000000.0 == damlength * damhead * damhead * batter
  {
    CubicMetresToGigalitres(damlength * damhead * damhead) * batter
  }

  /** The water/rock ratio, 0 where the dam volume is 0. */
  function WaterRockRatio(resvolume: real, damvolume: real): (w: real)
    ensures damvolume == 0.0 ==> w == 0.0
    ensures damvolume != 0.0 ==> w * damvolume == resvolume
  {
    if damvolume != 0.0 then resvolume / damvolume else 0.0
  }

  /** The ledger row of a point, from the engine's values and the formulas
      of screen(); resVolume already holds half the dam volume. */
  function Row(p: PointData, params: Params, trig: Trig): (row: LedgerRow)
    requires p.minimum.Some? && Divisible(p, params, trig)
    ensures var elevpoint := p.minimum.value;
      var reshead, damhead := elevpoint + params.maxdamheight - p.reservoirMean, elevpoint + params.maxdamheight - p.damMean;
      && row.name == FeatureName("RES", p.id) && row.coordinates == (p.lat, p.lon)
      && row.elevation == elevpoint && row.damLength == p.damLength
      && row.waterArea * 10000.0 == p.projectedArea
      && (p.slopeMean == 0.0 ==> row.groundArea == row.waterArea)
      && (p.slopeMean != 0.0 ==> row.groundArea * trig.cosDegrees(p.slopeMean) == row.waterArea)
      && row.damArea * trig.cosAtan(params.dambatter) * 10000.0 == p.damLength * damhead
      && row.damVolume * 1000000.0 == p.damLength * damhead * damhead * params.dambatter
      && row.resVolume * 100.0 == row.waterArea * reshead + 50.0 * row.damVolume
      && (row.damVolume == 0.0 ==> row.wrRatio == 0.0)
      && (row.damVolume != 0.0 ==> row.wrRatio * row.damVolume == row.resVolume)
  {
    var elevpoint := p.minimum.value;
    var waterarea := SquareMetresToHectares(p.projectedArea);
    var damhead := Head(elevpoint, params, p.damMean);
    var damvolume := DamVolumeGL(p.damLength, damhead, params.dambatter);
    var resvolume := StorageGL(waterarea, Head(elevpoint, params, p.reservoirMean)) + 0.5 * damvolume;
    LedgerRow(FeatureName("RES", p.id), (p.lat, p.lon), elevpoint, waterarea,
              GroundAreaHa(waterarea, p.slopeMean, trig), resvolume, p.damLength,
              DamAreaHa(p.damLength, damhead, params.dambatter, trig), damvolume,
              WaterRockRatio(resvolume, damvolume))
  }

  /** The attribute names of fieldlot, in the order screen() appends them. */
  const FieldNames: seq<string> := ["Lat", "Long", "Elevation_m", "Water_area_ha", "Ground_area_ha",
    "Reservoir_volume_GL", "Dam_length_m", "Dam_area_ha", "Dam_volume_GL", "Water_rock_ratio"]

  /** The attributes written onto the reservoir: each one the value of the
      ledger column of the same name. */
  function Fieldlot(row: LedgerRow): (fs: seq<Field>)
    ensures |fs| == |FieldNames| && forall k :: 0 <= k < |fs| ==> fs[k].name == FieldNames[k]
  {
    [Field("Lat", row.coordinates.0), Field("Long", row.coordinates.1), Field("Elevation_m", row.elevation),
     Field("Water_area_ha", row.waterArea), Field("Ground_area_ha", row.groundArea),
     Field("Reservoir_volume_GL", row.resVolume), Field("Dam_length_m", row.damLength),
     Field("Dam_area_ha", row.damArea), Field("Dam_volume_GL", row.damVolume),
     Field("Water_rock_ratio", row.wrRatio)]
  }

  // ---------------------------------------------------------------------
  // One pour point.
  // ---------------------------------------------------------------------

  /** The outcome of one iteration of screen()'s loop. */
  function Evaluate(p: PointData, params: Params, trig: Trig): Outcome
  {
    if !InRange(params.screenrange, p.id) then OutOfRange
    else if p.fault == Some(SelectPoint) then Failed(SelectPoint)
    else if p.fault == Some(Delineate) then Failed(Delineate)
    else if p.minimum.None? then EmptyWatershed
    else if p.fault == Some(ExtractReservoir) then Failed(ExtractReservoir)
    else if Sum(p.counts) < params.minrescells then TooFewCells(Sum(p.counts))
    else if p.fault == Some(Polygonize) then Failed(Polygonize)
    else if p.fault == Some(SelectPart) then Failed(SelectPart)
    else if |KeptParts(p.partAreas)| != 1 then Aborted(PartCount(|KeptParts(p.partAreas)|))
    else Measure(p, params, trig)
  }

  /** The second half of the iteration, once a single reservoir part is
      selected: measurement, the dam, and the attributes. */
  function Measure(p: PointData, params: Params, trig: Trig): (r: Outcome)
    requires p.minimum.Some?
    ensures r.Failed? || r.Aborted? || r.Recorded?
    ensures r.Failed? ==> p.fault == Some(r.stage)
    ensures r.Aborted? ==> r.reason == ZeroDivision && !Divisible(p, params, trig)
    ensures r.Recorded? ==> p.fault.None? && Divisible(p, params, trig) && r.row == Row(p, params, trig)
  {
    if p.fault == Some(MeasureReservoir) then Failed(MeasureReservoir)
    else if p.slopeMean != 0.0 && trig.cosDegrees(p.slopeMean) == 0.0 then Aborted(ZeroDivision)
    else if p.fault == Some(BuildDam) then Failed(BuildDam)
    else if trig.cosAtan(params.dambatter) == 0.0 then Aborted(ZeroDivision)
    else if p.fault.Some? then Failed(p.fault.value)  // WriteFields, or a stage already passed
    else
      var row := Row(p, params, trig);
      Recorded(Fieldlot(row), row)
  }

  /** What each outcome of one iteration means: the range filter, the
      early exits, the uncaught exceptions, and that a point passing every
      check is recorded. */
  lemma EvaluateOutcomes(p: PointData, params: Params, trig: Trig)
    ensures var r := Evaluate(p, params, trig); r == OutOfRange <==> !InRange(params.screenrange, p.id)
    ensures var r := Evaluate(p, params, trig); r == EmptyWatershed <==>
      InRange(params.screenrange, p.id) && p.fault != Some(SelectPoint) && p.fault != Some(Delineate) && p.minimum.None?
    ensures var r := Evaluate(p, params, trig); r.TooFewCells? ==> r.cells == Sum(p.counts) < params.minrescells
    ensures var r := Evaluate(p, params, trig); r.Failed? ==> p.fault == Some(r.stage)
    ensures var r := Evaluate(p, params, trig); r.Recorded? ==>
      && InRange(params.screenrange, p.id) && p.fault.None? && p.minimum.Some?
      && Sum(p.counts) >= params.minrescells && |KeptParts(p.partAreas)| == 1
      && Divisible(p, params, trig) && r.row == Row(p, params, trig)
    ensures var r := Evaluate(p, params, trig); r.Aborted? ==>
      || (r.reason == PartCount(|KeptParts(p.partAreas)|) && |KeptParts(p.partAreas)| != 1)
      || (r.reason == ZeroDivision && !Divisible(p, params, trig))
    ensures var r := Evaluate(p, params, trig); r.Aborted? ==> InRange(params.screenrange, p.id) && p.minimum.Some? && Sum(p.counts) >= params.minrescells
    ensures var r := Evaluate(p, params, trig);
      && InRange(params.screenrange, p.id) && p.fault.None? && p.minimum.Some?
      && Sum(p.counts) >= params.minrescells && |KeptParts(p.partAreas)| == 1
      && Divisible(p, params, trig)
      ==> r.Recorded?
  {
  }

  /** Under the default settings a reservoir of 110 cells is skipped,
      whatever the engine would report later. */
  lemma ExampleTooFewCells(trig: Trig)
    ensures Evaluate(PointData(7, None, -34.9, 138.6, Some(310.0), [60, 50], [], 0.0, 0.0, 0.0, 0.0, 0.0),
                     Defaults, trig) == TooFewCells(110)
  {
    assert Sum([60, 50]) == 110 by {
      assert [60, 50][1..] == [50];
      assert [50][1..] == [];
    }
  }

  /** The enumerate loop that rewrites every entry called name. */
  method Patch(fieldlot: seq<Field>, name: string, value: real) returns (patched: seq<Field>)
    ensures |patched| == |fieldlot|
    ensures forall k :: 0 <= k < |fieldlot| ==>
      patched[k] == if fieldlot[k].name == name then Field(name, value) else fieldlot[k]
  {
    patched := fieldlot;
    for i := 0 to |fieldlot|
      invariant |patched| == |fieldlot|
      invariant forall k :: 0 <= k < i ==>
        patched[k] == if fieldlot[k].name == name then Field(name, value) else fieldlot[k]
      invariant forall k :: i <= k < |fieldlot| ==> patched[k] == fieldlot[k]
    {
      if patched[i].name == name {
        patched := patched[i := Field(name, value)];
      }
    }
  }

  /** The body of screen()'s loop for one point: the range filter and the
      early exits up to the single-part assertion, then the measurements. */
  method ScreenPoint(p: PointData, params: Params, trig: Trig) returns (outcome: Outcome)
    ensures outcome == Evaluate(p, params, trig)
  {
    if params.screenrange.Between? && !(params.screenrange.lo <= p.id < params.screenrange.hi) {
      return OutOfRange;
    }
    if p.fault == Some(SelectPoint) {
      return Failed(SelectPoint);
    }
    if p.fault == Some(Delineate) {
      return Failed(Delineate);
    }
    if p.minimum.None? {
      return EmptyWatershed;
    }
    if p.fault == Some(ExtractReservoir) {
      return Failed(ExtractReservoir);
    }
    var cells := Sum(p.counts);
    if cells < params.minrescells {
      return TooFewCells(cells);
    }
    if p.fault == Some(Polygonize) {
      return Failed(Polygonize);
    }
    if p.fault == Some(SelectPart) {
      return Failed(SelectPart);
    }
    var parts := KeptParts(p.partAreas);
    if |parts| != 1 {
      return Aborted(PartCount(|parts|));
    }

    outcome := MeasureSite(p, params, trig);
  }

  /** Lines 85-164 of the loop body: fieldlot built append by append, the
      volume correction patched into it, and the ledger row. */
  method MeasureSite(p: PointData, params: Params, trig: Trig) returns (outcome: Outcome)
    requires p.minimum.Some?
    ensures outcome == Measure(p, params, trig)
  {
    var latitude, longitude, elevpoint := p.lat, p.lon, p.minimum.value;
    var fieldlot: seq<Field> := [];
    fieldlot := fieldlot + [Field("Lat", latitude)];
    fieldlot := fieldlot + [Field("Long", longitude)];
    var elevation := elevpoint;
    fieldlot := fieldlot + [Field("Elevation_m", elevpoint)];

    if p.fault == Some(MeasureReservoir) {
      return Failed(MeasureReservoir);
    }
    var waterarea := SquareMetresToHectares(p.projectedArea);
    if p.slopeMean != 0.0 && trig.cosDegrees(p.slopeMean) == 0.0 {
      return Aborted(ZeroDivision);
    }
    var groundarea := GroundAreaHa(waterarea, p.slopeMean, trig);
    fieldlot := fieldlot + [Field("Water_area_ha", waterarea)];
    fieldlot := fieldlot + [Field("Ground_area_ha", groundarea)];

    var resvolume := StorageGL(waterarea, Head(elevpoint, params, p.reservoirMean));
    fieldlot := fieldlot + [Field("Reservoir_volume_GL", resvolume)];

    if p.fault == Some(BuildDam) {
      return Failed(BuildDam);
    }
    var damlength := p.damLength;
    fieldlot := fieldlot + [Field("Dam_length_m", damlength)];
    if trig.cosAtan(params.dambatter) == 0.0 {
      return Aborted(ZeroDivision);
    }
    var damhead := Head(elevpoint, params, p.damMean);
    var damarea := DamAreaHa(damlength, damhead, params.dambatter, trig);
    fieldlot := fieldlot + [Field("Dam_area_ha", damarea)];
    var damvolume := DamVolumeGL(damlength, damhead, params.dambatter);
    fieldlot := fieldlot + [Field("Dam_volume_GL", damvolume)];

    resvolume := resvolume + 0.5 * damvolume;
    fieldlot := Patch(fieldlot, "Reservoir_volume_GL", resvolume);

    var wrratio := WaterRockRatio(resvolume, damvolume);
    fieldlot := fieldlot + [Field("Water_rock_ratio", wrratio)];

    if p.fault.Some? {
      return Failed(p.fault.value);
    }
    var row := LedgerRow(FeatureName("RES", p.id), (latitude, longitude), elevation, waterarea, groundarea,
                         resvolume, damlength, damarea, damvolume, wrratio);
    assert row == Row(p, params, trig);
    assert fieldlot == Fieldlot(row);
    return Recorded(fieldlot, row);
  }

  // ---------------------------------------------------------------------
  // What a record says.
  // ---------------------------------------------------------------------

  /** Water area in hectares and the final reservoir volume in closed form:
      storage to the top water level above the reservoir's mean elevation,
      plus half the embankment volume measured from the dam's mean elevation. */
  lemma ReservoirVolume(p: PointData, params: Params, trig: Trig)
    requires Evaluate(p, params, trig).Recorded?
    ensures var row := Evaluate(p, params, trig).row;
      var elevpoint := p.minimum.value;
      && row.elevation == elevpoint
      && row.waterArea * 10000.0 == p.projectedArea
      && row.resVolume ==
         p.projectedArea * 0.0001 * (elevpoint + params.maxdamheight - p.reservoirMean) * 0.01
         + 0.5 * (p.damLength * (elevpoint + params.maxdamheight - p.damMean) * (elevpoint + params.maxdamheight - p.damMean)
                  * 0.000001 * params.dambatter)
      && row.wrRatio == WaterRockRatio(row.resVolume, row.damVolume)
  {
  }

  /** The attributes on the feature and the ledger row agree column by
      column; in particular Reservoir_volume_GL carries the corrected volume. */
  lemma FieldlotMatchesLedger(p: PointData, params: Params, trig: Trig)
    requires Evaluate(p, params, trig).Recorded?
    ensures var o := Evaluate(p, params, trig);
      && |o.fieldlot| == 10
      && (forall k :: 0 <= k < 10 ==> o.fieldlot[k].name == FieldNames[k])
      && o.fieldlot[5] == Field("Reservoir_volume_GL", o.row.resVolume)
      && o.row.name == FeatureName("RES", p.id)
      && o.row.coordinates == (p.lat, p.lon)
  {
  }

  /** A point past the early exits whose two largest parts tie trips the
      single-part assertion: an AssertionError, not a failure of that point. */
  lemma TiedPartsAbort(p: PointData, params: Params, trig: Trig, i: nat, j: nat)
    requires InRange(params.screenrange, p.id) && p.fault.None? && p.minimum.Some?
    requires Sum(p.counts) >= params.minrescells
    requires i < j < |p.partAreas| && p.partAreas[i] == p.partAreas[j]
    requires forall k :: 0 <= k < |p.partAreas| ==> p.partAreas[k] <= p.partAreas[i]
    ensures Evaluate(p, params, trig) == Aborted(PartCount(|KeptParts(p.partAreas)|))
    ensures |KeptParts(p.partAreas)| >= 2
  {
    TiedLargestPartsKept(p.partAreas, i, j);
  }

  // ---------------------------------------------------------------------
  // The whole batch.
  // ---------------------------------------------------------------------

  /** The outcomes of screen() over the cursor's points, up to and including
      the first that raises an uncaught exception. */
  function ScreenAll(points: seq<PointData>, params: Params, trig: Trig): seq<Outcome>
  {
    if points == [] then []
    else
      var o := Evaluate(points[0], params, trig);
      if o.Aborted? then [o] else [o] + ScreenAll(points[1..], params, trig)
  }

  /** The rows appended to records.csv: one per recorded outcome, in order. */
  function Ledger(outcomes: seq<Outcome>): seq<LedgerRow>
  {
    if outcomes == [] then []
    else (if outcomes[0].Recorded? then [outcomes[0].row] else []) + Ledger(outcomes[1..])
  }

  lemma {:induction false} LedgerAppend(a: seq<Outcome>, b: seq<Outcome>)
    ensures Ledger(a + b) == Ledger(a) + Ledger(b)
  {
    if a == [] {
      assert a + b == b;
    } else {
      assert (a + b)[0] == a[0];
      assert (a + b)[1..] == a[1..] + b;
      LedgerAppend(a[1..], b);
    }
  }

  lemma {:induction false} ScreenAllUnfold(points: seq<PointData>, params: Params, trig: Trig, k: nat)
    requires k < |points|
    requires forall t :: 0 <= t < k ==> !Evaluate(points[t], params, trig).Aborted?
    ensures ScreenAll(points, params, trig) ==
      ScreenAll(points[..k], params, trig) + ScreenAll(points[k..], params, trig)
  {
    if k > 0 {
      assert !Evaluate(points[0], params, trig).Aborted?;
      assert points[1..][..k - 1] == points[..k][1..];
      assert points[1..][k - 1..] == points[k..];
      ScreenAllUnfold(points[1..], params, trig, k - 1);
    } else {
      assert points[k..] == points;
    }
  }

  /** screen(): every point in cursor order; rows go to the ledger as they
      are recorded; an uncaught exception ends the loop. */
  method Screen(points: seq<PointData>, params: Params, trig: Trig) returns (outcomes: seq<Outcome>, ledger: seq<LedgerRow>)
    ensures outcomes == ScreenAll(points, params, trig)
    ensures ledger == Ledger(outcomes)
  {
    outcomes, ledger := [], [];
    var k := 0;
    while k < |points|
      invariant k <= |points|
      invariant forall t :: 0 <= t < k ==> !Evaluate(points[t], params, trig).Aborted?
      invariant outcomes == ScreenAll(points[..k], params, trig)
      invariant ledger == Ledger(outcomes)
    {
      var outcome := ScreenPoint(points[k], params, trig);
      ScreenStep(points, params, trig, k);
      LedgerAppend(outcomes, [outcome]);
      outcomes := outcomes + [outcome];
      if outcome.Aborted? {
        return;
      }
      if outcome.Recorded? {
        ledger := ledger + [outcome.row];
      }
      k := k + 1;
    }
    assert points[..k] == points;
  }

  /** One iteration of the batch: the next point's outcome is appended, and
      after an abort nothing more follows. */
  lemma ScreenStep(points: seq<PointData>, params: Params, trig: Trig, k: nat)
    requires k < |points|
    requires forall t :: 0 <= t < k ==> !Evaluate(points[t], params, trig).Aborted?
    ensures ScreenAll(points[..k + 1], params, trig) ==
      ScreenAll(points[..k], params, trig) + [Evaluate(points[k], params, trig)]
    ensures Evaluate(points[k], params, trig).Aborted? ==>
      ScreenAll(points, params, trig) == ScreenAll(points[..k + 1], params, trig)
  {
    assert points[..k + 1] == points[..k] + [points[k]];
    ScreenAllSingle(points[..k], points[k], params, trig);
    if Evaluate(points[k], params, trig).Aborted? {
      ScreenAllUnfold(points, params, trig, k);
      assert points[k..][0] == points[k];
      assert ScreenAll(points[k..], params, trig) == [Evaluate(points[k], params, trig)];
    }
  }

  lemma {:induction false} ScreenAllSingle(done: seq<PointData>, p: PointData, params: Params, trig: Trig)
    requires forall t :: 0 <= t < |done| ==> !Evaluate(done[t], params, trig).Aborted?
    ensures ScreenAll(done + [p], params, trig) == ScreenAll(done, params, trig) + [Evaluate(p, params, trig)]
  {
    if done == [] {
      assert [p][1..] == [];
    } else {
      assert (done + [p])[1..] == done[1..] + [p];
      assert !Evaluate(done[0], params, trig).Aborted?;
      ScreenAllSingle(done[1..], p, params, trig);
    }
  }

  /** Outcome k belongs to point k, only an uncaught exception stops the
      batch early, and it is then the last outcome. */
  lemma {:induction false} ScreenAllShape(points: seq<PointData>, params: Params, trig: Trig)
    ensures var os := ScreenAll(points, params, trig);
      && |os| <= |points|
      && (forall k :: 0 <= k < |os| ==> os[k] == Evaluate(points[k], params, trig))
      && (forall k :: 0 <= k < |os| - 1 ==> !os[k].Aborted?)
      && (|os| < |points| ==> |os| > 0 && os[|os| - 1].Aborted?)
  {
    if points != [] {
      ScreenAllShape(points[1..], params, trig);
      var os := ScreenAll(points, params, trig);
      var rest := ScreenAll(points[1..], params, trig);
      if !Evaluate(points[0], params, trig).Aborted? {
        forall k | 0 < k < |os| ensures os[k] == Evaluate(points[k], params, trig) {
          assert os[k] == rest[k - 1];
          assert points[1..][k - 1] == points[k];
        }
      }
    }
  }

  /** Without an abort every point yields one outcome. */
  lemma {:induction false} ScreenAllNoAbort(points: seq<PointData>, params: Params, trig: Trig)
    requires forall t :: 0 <= t < |points| ==> !Evaluate(points[t], params, trig).Aborted?
    ensures |ScreenAll(points, params, trig)| == |points|
  {
    if points != [] {
      assert !Evaluate(points[0], params, trig).Aborted?;
      ScreenAllNoAbort(points[1..], params, trig);
    }
  }

  /** The batch ends at the first point with tied largest parts: its
      AssertionError is the last outcome and no later point is screened. */
  lemma TiedPartsEndBatch(points: seq<PointData>, params: Params, trig: Trig, k: nat, i: nat, j: nat)
    requires k < |points|
    requires forall t :: 0 <= t < k ==> !Evaluate(points[t], params, trig).Aborted?
    requires var p := points[k];
      && InRange(params.screenrange, p.id) && p.fault.None? && p.minimum.Some?
      && Sum(p.counts) >= params.minrescells
      && i < j < |p.partAreas| && p.partAreas[i] == p.partAreas[j]
      && forall m :: 0 <= m < |p.partAreas| ==> p.partAreas[m] <= p.partAreas[i]
    ensures var os := ScreenAll(points, params, trig);
      |os| == k + 1 && os[k].Aborted? && os[k].reason.PartCount? && os[k].reason.parts >= 2
  {
    TiedPartsAbort(points[k], params, trig, i, j);
    ScreenAllUnfold(points, params, trig, k);
    ScreenAllNoAbort(points[..k], params, trig);
    assert points[k..][0] == points[k];
    assert ScreenAll(points[k..], params, trig) == [Evaluate(points[k], params, trig)];
  }

  /** A point outside screenrange leaves no trace in the ledger: screening
      without it writes the same rows. */
  lemma {:induction false} OutOfRangeLeavesNoRow(points: seq<PointData>, params: Params, trig: Trig, j: nat)
    requires j < |points| && !InRange(params.screenrange, points[j].id)
    ensures Ledger(ScreenAll(points, params, trig)) ==
      Ledger(ScreenAll(points[..j] + points[j + 1..], params, trig))
  {
    var without := points[..j] + points[j + 1..];
    if j == 0 {
      assert without == points[1..];
      assert ScreenAll(points, params, trig) == [OutOfRange] + ScreenAll(points[1..], params, trig);
    } else {
      var o := Evaluate(points[0], params, trig);
      assert without[0] == points[0];
      assert without[1..] == points[1..][..j - 1] + points[1..][j..];
      OutOfRangeLeavesNoRow(points[1..], params, trig, j - 1);
      if !o.Aborted? {
        assert ScreenAll(points, params, trig) == [o] + ScreenAll(points[1..], params, trig);
        assert ScreenAll(without, params, trig) == [o] + ScreenAll(without[1..], params, trig);
      }
    }
  }

  /** Every ledger row comes from a recorded point of the batch: one inside
      screenrange, with enough cells and a single reservoir part. */
  lemma {:induction false} LedgerRowsRecorded(points: seq<PointData>, params: Params, trig: Trig, row: LedgerRow)
    requires row in Ledger(ScreenAll(points, params, trig))
    ensures exists k :: 0 <= k < |points| && Evaluate(points[k], params, trig) == Recorded(Fieldlot(row), row)
  {
    var o := Evaluate(points[0], params, trig);
    var os := ScreenAll(points, params, trig);
    if o.Recorded? && row == o.row {
      assert Evaluate(points[0], params, trig) == Recorded(Fieldlot(row), row);
    } else {
      assert !o.Aborted?;
      assert os == [o] + ScreenAll(points[1..], params, trig);
      assert Ledger(os) == (if o.Recorded? then [o.row] else []) + Ledger(ScreenAll(points[1..], params, trig));
      LedgerRowsRecorded(points[1..], params, trig, row);
      var k :| 0 <= k < |points[1..]| && Evaluate(points[1..][k], params, trig) == Recorded(Fieldlot(row), row);
      assert points[1..][k] == points[k + 1];
    }
  }
}
