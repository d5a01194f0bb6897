/** The list logic of PrettySet.py around removal(): the module-level check
    that every RES_ feature class has a DAM_ partner, the per-site loop of
    resdamcr8() with its suffix assertion and its field allow-list, and the
    truncation applied to the integer presentation fields. */
module PrettySet {
  import opened Text
  import Overlap

  // ---------------------------------------------------------------------
  // Module level: residx, damidx and the length assertion.
  // ---------------------------------------------------------------------

  /** [int(e.split("_")[-1]) for e in names]; None where int() raises. */
  function Indices(names: seq<string>): (r: Option<seq<nat>>)
    ensures r.Some? <==> forall k :: 0 <= k < |names| ==> ParseNat(LastField(names[k])).Some?
    ensures r.Some? ==> (|r.value| == |names| &&
      forall k :: 0 <= k < |names| ==> ParseNat(LastField(names[k])) == Some(r.value[k]))
  {
    if names == [] then Some([])
    else
      var head := ParseNat(LastField(names[0]));
      var tail := Indices(names[1..]);
      if head.None? || tail.None? then None else Some([head.value] + tail.value)
  }

  /** The ids of xs that are missing from ys, in order: the "Check DAM_" /
      "Check RES_" messages. */
  function MissingFrom(xs: seq<nat>, ys: seq<nat>): (r: seq<nat>)
    ensures forall x :: x in r <==> x in xs && x !in ys
  {
    if xs == [] then []
    else (if xs[0] in ys then [] else [xs[0]]) + MissingFrom(xs[1..], ys)
  }

  /** The outcome of the module-level statements before removal() runs. */
  datatype InputCheck =
    | BadName                                              // int() raised ValueError
    | CountMismatch(missingDams: seq<nat>, missingRes: seq<nat>)   // "Find the missing data."
    | Checked(residx: seq<nat>, damidx: seq<nat>, missingDams: seq<nat>, missingRes: seq<nat>)

  function CheckInputs(resfc: seq<string>, damfc: seq<string>): (c: InputCheck)
    ensures c.BadName? <==> Indices(resfc).None? || Indices(damfc).None?
    ensures c.Checked? <==> Indices(resfc).Some? && Indices(damfc).Some? && |resfc| == |damfc|
    ensures c.Checked? ==> c.residx == Indices(resfc).value && c.damidx == Indices(damfc).value
    ensures !c.BadName? ==>
      && c.missingDams == MissingFrom(Indices(resfc).value, Indices(damfc).value)
      && c.missingRes == MissingFrom(Indices(damfc).value, Indices(resfc).value)
    ensures !c.BadName? ==> forall d ::
      && (d in c.missingDams <==> d in Indices(resfc).value && d !in Indices(damfc).value)
      && (d in c.missingRes <==> d in Indices(damfc).value && d !in Indices(resfc).value)
  {
    var res, dam := Indices(resfc), Indices(damfc);
    if res.None? || dam.None? then BadName
    else
      var missingDams, missingRes := MissingFrom(res.value, dam.value), MissingFrom(dam.value, res.value);
      if |resfc| != |damfc| then CountMismatch(missingDams, missingRes)
      else Checked(res.value, dam.value, missingDams, missingRes)
  }

  function FeatureNames(prefix: string, ids: seq<nat>): (names: seq<string>)
    ensures |names| == |ids|
    ensures forall k :: 0 <= k < |ids| ==> names[k] == FeatureName(prefix, ids[k])
  {
    seq(|ids|, k requires 0 <= k < |ids| => FeatureName(prefix, ids[k]))
  }

  lemma {:induction false} IndicesOfFeatureNames(prefix: string, ids: seq<nat>)
    ensures Indices(FeatureNames(prefix, ids)) == Some(ids)
  {
    var names := FeatureNames(prefix, ids);
    forall k | 0 <= k < |ids| ensures ParseNat(LastField(names[k])) == Some(ids[k]) {
      ParseFeatureName(prefix, ids[k]);
    }
    var r := Indices(names);
    assert r.value == ids;
  }

  lemma {:induction false} NothingMissing(xs: seq<nat>, ys: seq<nat>)
    requires forall x :: x in xs ==> x in ys
    ensures MissingFrom(xs, ys) == []
  {
    if xs != [] {
      assert xs[0] in ys;
      NothingMissing(xs[1..], ys);
    }
  }

  /** The RES_/DAM_ classes the screener writes for the same ids pass the
      module-level checks, with nothing reported missing. */
  lemma ScreenedNamesPass(ids: seq<nat>)
    ensures CheckInputs(FeatureNames("RES", ids), FeatureNames("DAM", ids)) == Checked(ids, ids, [], [])
  {
    IndicesOfFeatureNames("RES", ids);
    IndicesOfFeatureNames("DAM", ids);
    NothingMissing(ids, ids);
  }

  /** RES_1 with only DAM_2 beside it: equal counts pass the length
      assertion, and each id is reported missing its partner. */
  lemma ExampleMissingPartner()
    ensures CheckInputs(FeatureNames("RES", [1]), FeatureNames("DAM", [2])) == Checked([1], [2], [1], [2])
  {
    IndicesOfFeatureNames("RES", [1]);
    IndicesOfFeatureNames("DAM", [2]);
  }

  /** int(name.split("_")[1]); None where the name has no '_' (IndexError)
      or int() raises. */
  function SecondFieldId(name: string): Option<nat>
  {
    var parts := Split(name);
    if |parts| < 2 then None else ParseNat(parts[1])
  }

  /** idxrmvl: [int(resfc[x].split("_")[1]) for x in rmvl]; None where one of
      the names raises. */
  function RemovedIds(resfc: seq<string>, rmvl: seq<nat>): (r: Option<seq<nat>>)
    requires forall t :: 0 <= t < |rmvl| ==> rmvl[t] < |resfc|
    ensures r.Some? <==> forall t :: 0 <= t < |rmvl| ==> SecondFieldId(resfc[rmvl[t]]).Some?
    ensures r.Some? ==> (|r.value| == |rmvl| &&
      forall t :: 0 <= t < |rmvl| ==> SecondFieldId(resfc[rmvl[t]]) == Some(r.value[t]))
  {
    if rmvl == [] then Some([])
    else
      var head := SecondFieldId(resfc[rmvl[0]]);
      var tail := RemovedIds(resfc, rmvl[1..]);
      if head.None? || tail.None? then None else Some([head.value] + tail.value)
  }

  /** For a feature name prefix_str(id) with a '_'-free prefix, split("_")[1]
      and split("_")[-1] are the same field, and int() of it is id. */
  lemma SecondFieldOfFeatureName(prefix: string, id: nat)
    requires '_' !in prefix
    ensures SecondFieldId(FeatureName(prefix, id)) == Some(id)
    ensures SecondFieldId(FeatureName(prefix, id)) == ParseNat(LastField(FeatureName(prefix, id)))
  {
    var d := Decimal(id);
    assert '_' !in d by {
      forall k | 0 <= k < |d| ensures d[k] != '_' { assert IsDigit(d[k]); }
    }
    SplitJoined(prefix, d);
    SplitPlain(prefix);
    SplitPlain(d);
    assert Split(FeatureName(prefix, id)) == [prefix, d];
    ParseDecimal(id);
  }

  /** A doubled separator tells the two apart: in "RES__1" the field
      split("_")[1] is empty, so int() raises, while split("_")[-1] is "1". */
  lemma ExampleDoubleSeparator()
    ensures SecondFieldId("RES__1") == None
    ensures ParseNat(LastField("RES__1")) == Some(1)
  {
    assert "RES__1" == "RES" + "_" + "_1";
    SplitJoined("RES", "_1");
    SplitPlain("RES");
    assert "_1" == ['_'] + "1";
    SplitCons('_', "1");
    SplitPlain("1");
    assert Split("RES__1") == ["RES", "", "1"];
    assert DigitsValue("1") == 1 by { assert "1"[..0] == ""; }
  }

  /** For names of the form RES_<id>, idxrmvl lists the removed ids. */
  lemma {:induction false} RemovedIdsOfFeatureNames(ids: seq<nat>, rmvl: seq<nat>)
    requires forall t :: 0 <= t < |rmvl| ==> rmvl[t] < |ids|
    ensures var r := RemovedIds(FeatureNames("RES", ids), rmvl);
      r.Some? && forall t :: 0 <= t < |rmvl| ==> r.value[t] == ids[rmvl[t]]
  {
    if rmvl != [] {
      SecondFieldOfFeatureName("RES", ids[rmvl[0]]);
      RemovedIdsOfFeatureNames(ids, rmvl[1..]);
      var r := RemovedIds(FeatureNames("RES", ids), rmvl);
      forall t | 0 <= t < |rmvl| ensures r.value[t] == ids[rmvl[t]] {
        if t > 0 { assert rmvl[1..][t - 1] == rmvl[t]; }
      }
    }
  }

  // ---------------------------------------------------------------------
  // removal() as a whole.
  // ---------------------------------------------------------------------

  /** How removal() ends: int() raising on line 88, the assertion on line 99
      failing, or returning resl and daml. */
  datatype RemovalResult =
    | RemovedIdRaised
    | Unpaired(resl: seq<string>, daml: seq<string>)
    | Returned(resl: seq<string>, daml: seq<string>)

  /** removal(): the nested scan growing rmvl, idxrmvl, then resl and daml. */
  method Removal(lat: array<real>, lon: array<real>, ratio: array<real>, names: seq<string>,
                 damfc: seq<string>, overlaps: Overlap.Oracle)
    returns (rmvl: seq<nat>, idxrmvl: Option<seq<nat>>, result: RemovalResult)
    requires lat.Length == |names| && lon.Length == |names| && ratio.Length == |names|
    ensures rmvl == Overlap.Removed(Overlap.Sites(lat[..], lon[..], ratio[..], names), overlaps)
    ensures forall t :: 0 <= t < |rmvl| ==> rmvl[t] < |names|
    ensures idxrmvl == RemovedIds(names, rmvl)
    ensures result.RemovedIdRaised? <==> idxrmvl.None?
    ensures idxrmvl.Some? ==>
      var resl := Overlap.ResList(names, rmvl);
      var daml := Overlap.DamsFor(resl, damfc);
      result == if |resl| == |daml| then Returned(resl, daml) else Unpaired(resl, daml)
  {
    rmvl := Overlap.Scan(lat, lon, ratio, names, overlaps);
    Overlap.RemovalSound(Overlap.Sites(lat[..], lon[..], ratio[..], names), overlaps);
    idxrmvl := RemovedIds(names, rmvl);
    if idxrmvl.None? {
      result := RemovedIdRaised;
      return;
    }
    var resl := Overlap.ResList(names, rmvl);
    var daml := Overlap.PairDams(resl, damfc);
    result := if |resl| == |daml| then Returned(resl, daml) else Unpaired(resl, daml);
  }

  // ---------------------------------------------------------------------
  // resdamcr8(): the field allow-list.
  // ---------------------------------------------------------------------

  /** FieldList: the attributes a merged reservoir+dam feature keeps. */
  const FieldList: seq<string> := ["OBJECTID", "Shape", "Lat", "Long", "Elevation_m", "Water_area_ha",
    "Ground_area_ha", "Reservoir_volume_GL", "Dam_length_m", "Dam_area_ha", "Dam_volume_GL",
    "Water_rock_ratio", "Index", "Shape_Length", "Shape_Area"]

  /** DropField = [f for f in AllField if f not in FieldList]. */
  function DropFields(all: seq<string>): (r: seq<string>)
    ensures forall f :: f in r <==> f in all && f !in FieldList
    ensures |r| <= |all|
  {
    if all == [] then []
    else (if all[0] in FieldList then [] else [all[0]]) + DropFields(all[1..])
  }

  /** Dropping distributes over concatenation: the dropped fields keep the
      order they have in AllField. */
  lemma {:induction false} DropFieldsAppend(a: seq<string>, b: seq<string>)
    ensures DropFields(a + b) == DropFields(a) + DropFields(b)
  {
    if a == [] {
      assert a + b == b;
    } else {
      assert (a + b)[0] == a[0];
      assert (a + b)[1..] == a[1..] + b;
      DropFieldsAppend(a[1..], b);
    }
  }

  // ---------------------------------------------------------------------
  // resdamcr8(): presentation rounding of the integer fields.
  // ---------------------------------------------------------------------

  /** int(float(value)), applied to Water_area_ha, Ground_area_ha,
      Reservoir_volume_GL, Dam_length_m and Water_rock_ratio: truncation
      toward zero, not rounding. */
  function TruncateTowardZero(x: real): (r: int)
    ensures x >= 0.0 ==> 0 <= r && r as real <= x < r as real + 1.0
    ensures x < 0.0 ==> r <= 0 && r as real - 1.0 < x <= r as real
  {
    if x >= 0.0 then x.Floor else -((-x).Floor)
  }

  // ---------------------------------------------------------------------
  // resdamcr8(): the per-site loop.
  // ---------------------------------------------------------------------

  /** How the try block of one site ends. An engine call that raises
      arcpy.ExecuteError is caught by the only handler of the loop; any
      other exception (a RuntimeError from the search cursor, a ValueError
      from float()) escapes resdamcr8() and ends the run. */
  datatype SiteFault = NoFault | ExecuteError | Uncaught

  /** What the try block of one site leaves behind. The buffer, erase,
      merge, smoothing and KML export are engine calls; when one of them
      raises arcpy.ExecuteError the site is logged and skipped. */
  datatype SiteResult =
    | Assembled(resIndex: string, damIndex: string, dropped: seq<string>, output: string)
    | SiteFailed(reservoir: string)

  function SiteOf(res: string, dam: string, fault: SiteFault, mergedFields: seq<string>): SiteResult
    requires fault != Uncaught
  {
    if fault == ExecuteError then SiteFailed(res)
    else Assembled(res, dam, DropFields(mergedFields), "RESDAM_" + LastField(res) + "_FC")
  }

  predicate Aligned(res: string, dam: string) { LastField(res) == LastField(dam) }

  /** The first position k >= from whose suffixes differ, or |resl|. */
  function FirstMisaligned(resl: seq<string>, daml: seq<string>, from: nat): (k: nat)
    requires |daml| == |resl| && from <= |resl|
    ensures from <= k <= |resl|
    ensures forall t :: from <= t < k ==> Aligned(resl[t], daml[t])
    ensures k < |resl| ==> !Aligned(resl[k], daml[k])
    decreases |resl| - from
  {
    if from == |resl| || !Aligned(resl[from], daml[from]) then from
    else FirstMisaligned(resl, daml, from + 1)
  }

  /** Site k ends the run: its suffix assertion fails, or its try block
      raises an exception no handler catches. */
  predicate Halts(res: string, dam: string, fault: SiteFault) { !Aligned(res, dam) || fault == Uncaught }

  /** The first position k >= from at which the run ends, or |resl|. */
  function FirstHalt(resl: seq<string>, daml: seq<string>, faults: seq<SiteFault>, from: nat): (k: nat)
    requires |daml| == |resl| && |faults| == |resl| && from <= |resl|
    ensures from <= k <= |resl|
    ensures forall t :: from <= t < k ==> !Halts(resl[t], daml[t], faults[t])
    ensures k < |resl| ==> Halts(resl[k], daml[k], faults[k])
    decreases |resl| - from
  {
    if from == |resl| || Halts(resl[from], daml[from], faults[from]) then from
    else FirstHalt(resl, daml, faults, from + 1)
  }

  /** The run never gets past the first suffix mismatch, and when no site
      raises an uncaught exception that mismatch is where it ends. */
  lemma {:induction false} FirstHaltBounds(resl: seq<string>, daml: seq<string>, faults: seq<SiteFault>, from: nat)
    requires |daml| == |resl| && |faults| == |resl| && from <= |resl|
    ensures FirstHalt(resl, daml, faults, from) <= FirstMisaligned(resl, daml, from)
    ensures (forall t :: from <= t < |resl| ==> faults[t] != Uncaught) ==>
      FirstHalt(resl, daml, faults, from) == FirstMisaligned(resl, daml, from)
    decreases |resl| - from
  {
    if from < |resl| && !Halts(resl[from], daml[from], faults[from]) {
      FirstHaltBounds(resl, daml, faults, from + 1);
    }
  }

  /** The results of the first k sites, each assembled or failed. */
  function SitesUpTo(resl: seq<string>, daml: seq<string>, faults: seq<SiteFault>, mergedFields: seq<seq<string>>, k: nat)
    : (r: seq<SiteResult>)
    requires |daml| == |resl| && |faults| == |resl| && |mergedFields| == |resl|
    requires k <= FirstHalt(resl, daml, faults, 0)
    ensures |r| == k && forall t :: 0 <= t < k ==> r[t] == SiteOf(resl[t], daml[t], faults[t], mergedFields[t])
  {
    seq(k, t requires 0 <= t < k => SiteOf(resl[t], daml[t], faults[t], mergedFields[t]))
  }

  lemma SitesUpToStep(resl: seq<string>, daml: seq<string>, faults: seq<SiteFault>, mergedFields: seq<seq<string>>, k: nat)
    requires |daml| == |resl| && |faults| == |resl| && |mergedFields| == |resl|
    requires k < FirstHalt(resl, daml, faults, 0)
    ensures SitesUpTo(resl, daml, faults, mergedFields, k + 1) ==
      SitesUpTo(resl, daml, faults, mergedFields, k) + [SiteOf(resl[k], daml[k], faults[k], mergedFields[k])]
  {
  }

  /** A site that does not end the run, before the first halt, moves that bound on. */
  lemma ContinueStep(resl: seq<string>, daml: seq<string>, faults: seq<SiteFault>, k: nat)
    requires |daml| == |resl| && |faults| == |resl| && k < |resl| && k <= FirstHalt(resl, daml, faults, 0)
    requires !Halts(resl[k], daml[k], faults[k])
    ensures k + 1 <= FirstHalt(resl, daml, faults, 0)
  {
  }

  /** A site that ends the run, no later than the first halt, is it. */
  lemma HaltStop(resl: seq<string>, daml: seq<string>, faults: seq<SiteFault>, k: nat)
    requires |daml| == |resl| && |faults| == |resl| && k < |resl| && k <= FirstHalt(resl, daml, faults, 0)
    requires Halts(resl[k], daml[k], faults[k])
    ensures FirstHalt(resl, daml, faults, 0) == k
  {
  }

  /** Why the loop of resdamcr8() ended before its last site. */
  datatype Stop = SuffixMismatch(at: nat) | UncaughtError(at: nat)

  /** The loop of resdamcr8(). The suffix assertion stands outside the try
      block, so a mismatch at k ends the script there; so does an exception
      other than arcpy.ExecuteError inside the try block. A site failing
      with ExecuteError only yields SiteFailed and the loop goes on. */
  method ResDamCr8(resl: seq<string>, daml: seq<string>, faults: seq<SiteFault>, mergedFields: seq<seq<string>>)
    returns (sites: seq<SiteResult>, stopped: Option<Stop>)
    requires |daml| == |resl| && |faults| == |resl| && |mergedFields| == |resl|
    ensures |sites| == FirstHalt(resl, daml, faults, 0)
    ensures stopped ==
      if |sites| == |resl| then None
      else if !Aligned(resl[|sites|], daml[|sites|]) then Some(SuffixMismatch(|sites|))
      else Some(UncaughtError(|sites|))
    ensures forall k :: 0 <= k < |sites| ==>
      faults[k] != Uncaught && sites[k] == SiteOf(resl[k], daml[k], faults[k], mergedFields[k])
  {
    sites := [];
    stopped := None;
    var k := 0;
    while k < |resl|
      invariant k <= FirstHalt(resl, daml, faults, 0) && |sites| == k && stopped == None
      invariant sites == SitesUpTo(resl, daml, faults, mergedFields, k)
    {
      if !Aligned(resl[k], daml[k]) {
        HaltStop(resl, daml, faults, k);
        stopped := Some(SuffixMismatch(k));
        return;
      }
      if faults[k] == Uncaught {
        HaltStop(resl, daml, faults, k);
        stopped := Some(UncaughtError(k));
        return;
      }
      ContinueStep(resl, daml, faults, k);
      SitesUpToStep(resl, daml, faults, mergedFields, k);
      sites := sites + [SiteOf(resl[k], daml[k], faults[k], mergedFields[k])];
      k := k + 1;
    }
  }

  /** Fed with removal()'s lists, where dam suffixes are unique and cover the
      survivors, the suffix assertion never stops the loop; with no uncaught
      exception either, every site is handled. */
  lemma PairedListsNeverStop(resl: seq<string>, damfc: seq<string>, faults: seq<SiteFault>)
    requires Overlap.UniqueSuffixes(damfc)
    requires forall k :: 0 <= k < |resl| ==> Overlap.HasSuffix(damfc, LastField(resl[k]))
    requires |faults| == |resl|
    ensures var daml := Overlap.DamsFor(resl, damfc);
      |daml| == |resl| && FirstMisaligned(resl, daml, 0) == |resl|
    ensures var daml := Overlap.DamsFor(resl, damfc);
      (forall k :: 0 <= k < |resl| ==> faults[k] != Uncaught) ==> FirstHalt(resl, daml, faults, 0) == |resl|
  {
    Overlap.DamsAligned(resl, damfc);
    FirstHaltBounds(resl, Overlap.DamsFor(resl, damfc), faults, 0);
  }
}
