/**
 * The inline keyboard `send_section_buttons` sends after a report: every
 * catalog section except the full dashboard, two buttons per row, in catalog
 * order, with a last row of one button when the count is odd.
 */
module Keyboard {
  import opened Wrappers
  import opened Sections

  /** An inline keyboard button: the text shown and the callback data sent back when pressed. */
  datatype Button = Button(text: string, callbackData: string)

  /**
   * Python's `list.remove(x)`: drops the first occurrence of `x`. `None`
   * stands for the ValueError raised when `x` is absent.
   */
  function RemoveFirst(s: seq<string>, x: string): (r: Option<seq<string>>)
    ensures r.Some? <==> x in s
  {
    if s == [] then None
    else if s[0] == x then Some(s[1..])
    else
      match RemoveFirst(s[1..], x)
      case None => None
      case Some(t) => Some([s[0]] + t)
  }

  /** When the first `x` in `s` is at `i`, `remove` leaves exactly the other elements, in order. */
  lemma {:induction false} RemoveFirstAt(s: seq<string>, x: string, i: int)
    requires 0 <= i < |s| && s[i] == x && x !in s[..i]
    ensures RemoveFirst(s, x) == Some(s[..i] + s[i + 1..])
  {
    if i > 0 {
      assert s[0] in s[..i];
      assert s[1..][..i - 1] == s[1..i];
      assert forall y :: y in s[1..i] ==> y in s[..i];
      RemoveFirstAt(s[1..], x, i - 1);
      assert s[..i] == [s[0]] + s[1..i];
      assert s[1..][i..] == s[i + 1..];
      assert [s[0]] + (s[1..i] + s[i + 1..]) == s[..i] + s[i + 1..];
    } else {
      assert s[..0] + s[1..] == s[1..];
    }
  }

  /** The buttons for `keys`, one per key, labelled from `labels`. */
  function ButtonsFor(keys: seq<string>, labels: map<string, string>): (bs: seq<Button>)
    requires forall k :: k in keys ==> k in labels
    ensures |bs| == |keys|
    ensures forall i :: 0 <= i < |keys| ==> bs[i] == Button(labels[keys[i]], keys[i])
  {
    seq(|keys|, i requires 0 <= i < |keys| => Button(labels[keys[i]], keys[i]))
  }

  /** The rows of a keyboard read left to right, top to bottom. */
  function Flatten<T>(rows: seq<seq<T>>): seq<T> {
    if rows == [] then [] else Flatten(rows[..|rows| - 1]) + rows[|rows| - 1]
  }

  lemma FlattenAppend<T>(rows: seq<seq<T>>, row: seq<T>)
    ensures Flatten(rows + [row]) == Flatten(rows) + row
  {
    assert (rows + [row])[..|rows|] == rows;
  }

  /**
   * The rows built by the comprehension over `range(0, len(keys) - 1, 2)`,
   * followed by `buttons.append` of the last key when `len(keys)` is odd.
   * Every label lookup must be defined.
   */
  method LayoutRows(keys: seq<string>, labels: map<string, string>) returns (rows: seq<seq<Button>>)
    requires forall k :: k in keys ==> k in labels
    ensures Flatten(rows) == ButtonsFor(keys, labels)
    ensures |rows| == (|keys| + 1) / 2
    ensures forall r :: 0 <= r < |rows| ==> |rows[r]| == if 2 * r + 1 == |keys| then 1 else 2
    ensures forall r :: 0 <= r < |rows| - 1 ==> |rows[r]| == 2
  {
    ghost var all := ButtonsFor(keys, labels);
    rows := [];
    var i := 0;
    while i < |keys| - 1
      invariant 0 <= i <= |keys| && i % 2 == 0
      invariant |rows| == i / 2
      invariant forall r :: 0 <= r < |rows| ==> |rows[r]| == 2
      invariant Flatten(rows) == all[..i]
    {
      var row := [Button(labels[keys[i]], keys[i]), Button(labels[keys[i + 1]], keys[i + 1])];
      FlattenAppend(rows, row);
      assert all[..i + 2] == all[..i] + row;
      rows := rows + [row];
      i := i + 2;
    }
    if |keys| % 2 == 1 {
      var last := |keys| - 1;
      var row := [Button(labels[keys[last]], keys[last])];
      FlattenAppend(rows, row);
      assert all[..last + 1] == all[..last] + row;
      rows := rows + [row];
    }
    assert all[..|keys|] == all;
  }

  /** The callback data of each button, in order. */
  function CallbackData(bs: seq<Button>): (ks: seq<string>)
    ensures |ks| == |bs|
    ensures forall i :: 0 <= i < |bs| ==> ks[i] == bs[i].callbackData
  {
    seq(|bs|, i requires 0 <= i < |bs| => bs[i].callbackData)
  }

  /** `keys.remove("fulldashboard")` on the catalog keys succeeds and leaves the other keys, in order. */
  lemma RemoveFullDashboard()
    ensures RemoveFirst(CatalogKeys(), FullDashboard) == Some(CatalogKeys()[1..])
  {
    RemoveFirstAt(CatalogKeys(), FullDashboard, 0);
    assert CatalogKeys()[..0] + CatalogKeys()[1..] == CatalogKeys()[1..];
  }

  /** The full dashboard is listed once, so no key left after the removal is the full dashboard. */
  lemma FullDashboardListedOnce()
    ensures FullDashboard !in CatalogKeys()[1..]
  {
    var keys := CatalogKeys();
    CatalogKeysDistinct();
    assert forall i :: 0 <= i < |keys[1..]| ==> keys[1..][i] == keys[i + 1] != keys[0];
  }

  /** Every key left after the removal is a section with a label. */
  lemma ShownKeysLabelled()
    ensures forall k :: k in CatalogKeys()[1..] ==> k in SectionCoordinates && k in SectionLabels
  {
    LabelsCoverCoordinates();
    var keys := CatalogKeys();
    assert forall k :: k in keys[1..] ==> k in keys;
  }

  /**
   * The keyboard of `send_section_buttons` for the catalog: four rows of two,
   * offering every section except the full dashboard exactly once, in catalog
   * order, each labelled with its `SECTION_LABELS` text.
   */
  method SectionButtons() returns (rows: seq<seq<Button>>)
    ensures |rows| == 4 && forall r :: 0 <= r < |rows| ==> |rows[r]| == 2
    ensures forall k :: k in CatalogKeys()[1..] ==> k in SectionLabels
    ensures Flatten(rows) == ButtonsFor(CatalogKeys()[1..], SectionLabels)
    ensures CallbackData(Flatten(rows)) == CatalogKeys()[1..]
    ensures FullDashboard !in CallbackData(Flatten(rows))
  {
    RemoveFullDashboard();
    FullDashboardListedOnce();
    ShownKeysLabelled();
    var remaining := RemoveFirst(CatalogKeys(), FullDashboard);
    rows := LayoutRows(remaining.value, SectionLabels);
    assert CallbackData(Flatten(rows)) == remaining.value;
  }
}
