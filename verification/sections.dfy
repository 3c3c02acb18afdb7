/**
 * The section catalog of the MSA/WSA dashboard (`SECTION_COORDINATES` and
 * `SECTION_LABELS` in try.py) and the size of the crop a catalog box yields.
 */
module Sections {
  import opened Wrappers

  /** A crop rectangle in pixels, in PIL's order: left, upper, right, lower. */
  datatype Box = Box(x1: int, y1: int, x2: int, y2: int) {
    predicate WellFormed() {
      x1 < x2 && y1 < y2
    }
  }

  /**
   * Size of the image PIL's `crop` returns for a well-formed box: the box is
   * used as given, never clamped to the captured image.
   */
  function CropSize(b: Box): (size: (nat, nat))
    requires b.WellFormed()
    ensures size.0 > 0 && size.1 > 0
    ensures b.x1 + size.0 == b.x2 && b.y1 + size.1 == b.y2
  {
    (b.x2 - b.x1, b.y2 - b.y1)
  }

  const FullDashboard := "fulldashboard"

  /** The entries of the `SECTION_COORDINATES` dict display, in source order. */
  const CoordinateEntries: seq<(string, Box)> := [
    ("fulldashboard", Box(10, 10, 1234, 974)),
    ("fulfillmentfbb", Box(34, 36, 334, 293)),
    ("assurancefbb", Box(351, 114, 724, 453)),
    ("scorecredit", Box(772, 117, 1222, 267)),
    ("fulfillmentbges", Box(34, 301, 333, 551)),
    ("assurancebges", Box(34, 559, 333, 913)),
    ("msaassurance", Box(743, 268, 1219, 622)),
    ("msacnop", Box(349, 458, 722, 911)),
    ("msaquality", Box(743, 635, 1212, 911))
  ]

  /** The entries of the `SECTION_LABELS` dict display, in source order. */
  const LabelEntries: seq<(string, string)> := [
    ("fulldashboard", "FULL DASHBOARD"),
    ("fulfillmentfbb", "FULFILLMENT FBB"),
    ("assurancefbb", "ASSURANCE FBB"),
    ("scorecredit", "SCORE CREDIT"),
    ("fulfillmentbges", "FULFILLMENT BGES"),
    ("assurancebges", "ASSURANCE BGES"),
    ("msaassurance", "MSA ASSURANCE"),
    ("msacnop", "MSA CNOP"),
    ("msaquality", "MSA QUALITY")
  ]

  /** The keys of a dict display, in order. */
  function Keys<V>(entries: seq<(string, V)>): (ks: seq<string>)
    ensures |ks| == |entries|
    ensures forall i :: 0 <= i < |ks| ==> ks[i] == entries[i].0
  {
    seq(|entries|, i requires 0 <= i < |entries| => entries[i].0)
  }

  predicate Distinct(ks: seq<string>) {
    forall i, j :: 0 <= i < j < |ks| ==> ks[i] != ks[j]
  }

  /** The dict a Python dict display builds: a later entry overrides an earlier one with the same key. */
  function DictOf<V(==)>(entries: seq<(string, V)>): (m: map<string, V>)
    ensures forall k :: k in m <==> k in Keys(entries)
    ensures forall k :: k in m ==> (k, m[k]) in entries
    ensures entries != [] ==> m[entries[|entries| - 1].0] == entries[|entries| - 1].1
  {
    if entries == [] then map[]
    else
      var init, last := entries[..|entries| - 1], entries[|entries| - 1];
      assert forall e :: e in init ==> e in entries;
      assert Keys(entries) == Keys(init) + [last.0];
      DictOf(init)[last.0 := last.1]
  }

  /** With distinct keys, every entry of the display is what the dict holds for its key. */
  lemma {:induction false} DictOfEntry<V>(entries: seq<(string, V)>, i: int)
    requires Distinct(Keys(entries)) && 0 <= i < |entries|
    ensures entries[i].0 in DictOf(entries) && DictOf(entries)[entries[i].0] == entries[i].1
    decreases |entries|
  {
    var n := |entries| - 1;
    if i < n {
      var init := entries[..n];
      assert Keys(init) == Keys(entries)[..n];
      DictOfEntry(init, i);
      assert entries[i].0 != entries[n].0;
    }
  }

  const SectionCoordinates: map<string, Box> := DictOf(CoordinateEntries)
  const SectionLabels: map<string, string> := DictOf(LabelEntries)

  /** `list(SECTION_COORDINATES.keys())`: the keys in the order of the display. */
  function CatalogKeys(): (ks: seq<string>)
    ensures |ks| == 9 && ks[0] == FullDashboard
  {
    Keys(CoordinateEntries)
  }

  /** The catalog keys are distinct, so the dict displays hold every entry. */
  lemma CatalogKeysDistinct()
    ensures Distinct(CatalogKeys())
  {
    assert CatalogKeys() == ["fulldashboard", "fulfillmentfbb", "assurancefbb", "scorecredit",
                             "fulfillmentbges", "assurancebges", "msaassurance", "msacnop", "msaquality"];
  }

  /**
   * `SECTION_LABELS` lists the same keys as `SECTION_COORDINATES`, in the same
   * order, so every `SECTION_LABELS[key]` lookup on a coordinate key is defined.
   */
  lemma LabelsCoverCoordinates()
    ensures Keys(LabelEntries) == CatalogKeys()
    ensures forall k :: k in SectionCoordinates <==> k in CatalogKeys()
    ensures SectionLabels.Keys == SectionCoordinates.Keys
  {
  }

  /** Every catalog box has positive width and height. */
  lemma BoxesWellFormed()
    ensures forall k :: k in SectionCoordinates ==> SectionCoordinates[k].WellFormed()
  {
  }

  /** Each coordinate entry is found under its own key. */
  lemma CoordinateLookup(i: int)
    requires 0 <= i < |CoordinateEntries|
    ensures SectionCoordinates[CoordinateEntries[i].0] == CoordinateEntries[i].1
  {
    CatalogKeysDistinct();
    DictOfEntry(CoordinateEntries, i);
  }

  /** Each label entry is found under its own key, which is the coordinate key at the same place. */
  lemma LabelLookup(i: int)
    requires 0 <= i < |LabelEntries|
    ensures LabelEntries[i].0 == CoordinateEntries[i].0
    ensures SectionLabels[LabelEntries[i].0] == LabelEntries[i].1
  {
    CatalogKeysDistinct();
    LabelsCoverCoordinates();
    DictOfEntry(LabelEntries, i);
  }

  /** The MSA QUALITY section crops to 469 by 276 pixels. */
  lemma MsaQualityCrop()
    ensures "msaquality" in SectionCoordinates && SectionCoordinates["msaquality"].WellFormed()
    ensures CropSize(SectionCoordinates["msaquality"]) == (469, 276)
    ensures SectionLabels["msaquality"] == "MSA QUALITY"
  {
    CoordinateLookup(8);
    LabelLookup(8);
  }
}
