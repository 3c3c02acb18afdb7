/**
 * What `section_callback` does when a section button is pressed, as the
 * sequence of steps it takes. The screenshot, the image file and the chat
 * are outside the model: a `Step` names the action and its arguments, and
 * whether the capture produced a file is a parameter.
 */
module Callback {
  import opened Sections

  datatype Step =
    | EditText(text: string)                         // query.edit_message_text
    | Capture(file: string)                          // screenshot of the MSA/WSA page into `file`
    | Crop(source: string, box: Box, dest: string)   // Image.open(source).crop(box).save(dest)
    | SendPhoto(file: string, caption: string)
    | SendText(text: string)
    | Remove(file: string)                           // os.remove
    | ShowSectionButtons                             // send_section_buttons

  const Unrecognised := "Bagian laporan tidak dikenali."
  const CaptureFailed := "Gagal mengambil screenshot."

  /**
   * The steps for callback data `key`. An unknown key ends the handler with
   * one message; a known key goes on with `KnownSectionSteps`.
   */
  function SectionCallback(key: string, captured: bool): (steps: seq<Step>)
    ensures |steps| >= 1 && steps[0].EditText?
    ensures |steps| == 1 <==> key !in SectionCoordinates
  {
    if key !in SectionCoordinates then [EditText(Unrecognised)]
    else
      LabelsCoverCoordinates();
      KnownSectionSteps(key, SectionLabels[key], SectionCoordinates[key], captured)
  }

  /**
   * The steps for a catalog section titled `title` with crop box `box`: announce
   * the section, capture the page and, when a file was produced (`captured`),
   * deliver the crop; otherwise report the failure.
   */
  function KnownSectionSteps(key: string, title: string, box: Box, captured: bool): (steps: seq<Step>)
    ensures |steps| == if captured then 7 else 3
    ensures steps[0] == EditText("Mengambil bagian laporan: " + title) && steps[1] == Capture(key + "_base.png")
    ensures steps[|steps| - 1] == if captured then ShowSectionButtons else SendText(CaptureFailed)
  {
    [EditText("Mengambil bagian laporan: " + title), Capture(key + "_base.png")] +
    if captured then Delivery(key, title, box) else [SendText(CaptureFailed)]
  }

  /**
   * Crop the capture with the box, send the crop captioned with the title,
   * delete both files and show the keyboard again.
   */
  function Delivery(key: string, title: string, box: Box): (d: seq<Step>)
    ensures |d| == 5 && d[0].Crop? && d[0].source == key + "_base.png" && d[0].box == box
    ensures d[1] == SendPhoto(d[0].dest, "Laporan: " + title)
    ensures d[2] == Remove(d[0].dest) && d[3] == Remove(d[0].source)
  {
    var base, cropped := key + "_base.png", key + "_cropped.png";
    [Crop(base, box, cropped), SendPhoto(cropped, "Laporan: " + title), Remove(cropped), Remove(base), ShowSectionButtons]
  }

  /** The steps that touch an image: captures and crops, in order. */
  function ImageWork(steps: seq<Step>): seq<Step> {
    if steps == [] then [] else Touches(steps[0]) + ImageWork(steps[1..])
  }

  function Touches(s: Step): seq<Step> {
    if s.Capture? || s.Crop? then [s] else []
  }

  lemma {:induction false} ImageWorkAppend(a: seq<Step>, b: seq<Step>)
    ensures ImageWork(a + b) == ImageWork(a) + ImageWork(b)
    decreases |a|
  {
    if a == [] {
      assert a + b == b;
    } else {
      assert (a + b)[0] == a[0] && (a + b)[1..] == a[1..] + b;
      ImageWorkAppend(a[1..], b);
      assert ImageWork(a + b) == Touches(a[0]) + (ImageWork(a[1..]) + ImageWork(b));
    }
  }

  /** ImageWork of a single step. */
  lemma ImageWorkSingle(s: Step)
    ensures ImageWork([s]) == Touches(s)
  {
    assert [s][1..] == [];
    assert Touches(s) + [] == Touches(s);
  }

  /** ImageWork of a suffix, one step at a time. */
  lemma ImageWorkFrom(steps: seq<Step>, i: int)
    requires 0 <= i < |steps|
    ensures ImageWork(steps[i..]) == Touches(steps[i]) + ImageWork(steps[i + 1..])
  {
    assert steps[i..][0] == steps[i] && steps[i..][1..] == steps[i + 1..];
  }

  /** Delivering a crop touches the images once: the crop with the given box. */
  lemma DeliveryImageWork(key: string, title: string, box: Box)
    ensures ImageWork(Delivery(key, title, box)) == [Crop(key + "_base.png", box, key + "_cropped.png")]
  {
    var d := Delivery(key, title, box);
    assert d[0..] == d && d[5..] == [];
    ImageWorkFrom(d, 4);
    ImageWorkFrom(d, 3);
    ImageWorkFrom(d, 2);
    ImageWorkFrom(d, 1);
    ImageWorkFrom(d, 0);
  }

  /** An unknown key is answered with "Bagian laporan tidak dikenali." and nothing is captured or cropped. */
  lemma UnknownKeyRejected(key: string, captured: bool)
    requires key !in SectionCoordinates
    ensures SectionCallback(key, captured) == [EditText(Unrecognised)]
    ensures ImageWork(SectionCallback(key, captured)) == []
  {
    ImageWorkSingle(EditText(Unrecognised));
  }

  /** The image work of a known section: one capture, then one crop with `box` when the capture produced a file. */
  lemma KnownSectionImageWork(key: string, title: string, box: Box, captured: bool)
    ensures ImageWork(KnownSectionSteps(key, title, box, captured)) ==
      [Capture(key + "_base.png")] + if captured then [Crop(key + "_base.png", box, key + "_cropped.png")] else []
  {
    var head := [EditText("Mengambil bagian laporan: " + title), Capture(key + "_base.png")];
    var tail := if captured then Delivery(key, title, box) else [SendText(CaptureFailed)];
    ImageWorkAppend(head, tail);
    assert head[0..] == head && head[2..] == [];
    ImageWorkFrom(head, 1);
    ImageWorkFrom(head, 0);
    if captured {
      DeliveryImageWork(key, title, box);
    } else {
      ImageWorkSingle(SendText(CaptureFailed));
    }
  }

  /**
   * A known key captures the page once and, when that produced a file, crops
   * exactly once with the catalog box, unclamped; a failed capture crops nothing.
   */
  lemma KnownKeyCropsCatalogBox(key: string, captured: bool)
    requires key in SectionCoordinates
    ensures ImageWork(SectionCallback(key, captured)) ==
      [Capture(key + "_base.png")] +
      if captured then [Crop(key + "_base.png", SectionCoordinates[key], key + "_cropped.png")] else []
  {
    LabelsCoverCoordinates();
    KnownSectionImageWork(key, SectionLabels[key], SectionCoordinates[key], captured);
  }

  /** A delivered section sends exactly one kind of photo: the crop, captioned "Laporan: " and the title. */
  lemma KnownSectionPhoto(key: string, title: string, box: Box)
    ensures SendPhoto(key + "_cropped.png", "Laporan: " + title) in KnownSectionSteps(key, title, box, true)
    ensures forall s :: s in KnownSectionSteps(key, title, box, true) && s.SendPhoto? ==>
      s.caption == "Laporan: " + title
  {
    var base, cropped := key + "_base.png", key + "_cropped.png";
    var photo := SendPhoto(cropped, "Laporan: " + title);
    assert KnownSectionSteps(key, title, box, true) ==
      [EditText("Mengambil bagian laporan: " + title), Capture(base), Crop(base, box, cropped), photo,
       Remove(cropped), Remove(base), ShowSectionButtons];
  }

  /**
   * A known key whose capture succeeded sends one photo, the crop, captioned
   * "Laporan: " followed by the section's label.
   */
  lemma KnownKeyCaption(key: string)
    requires key in SectionCoordinates
    ensures key in SectionLabels
    ensures SendPhoto(key + "_cropped.png", "Laporan: " + SectionLabels[key]) in SectionCallback(key, true)
    ensures forall s :: s in SectionCallback(key, true) && s.SendPhoto? ==>
      s.caption == "Laporan: " + SectionLabels[key]
  {
    LabelsCoverCoordinates();
    KnownSectionPhoto(key, SectionLabels[key], SectionCoordinates[key]);
  }
}
