/**
 * The greeting chosen by hour of day and the caption of the scheduled report
 * (`get_greeting` and `get_formatted_greeting_with_time`, written identically
 * in try.py and utils.py). The wall clock is a parameter: a `Moment` is what
 * `datetime.now(TIMEZONE)` returns in Asia/Jakarta.
 */
module Greetings {
  import opened Wrappers
  import opened Numerals

  const Pagi := "Selamat pagi"
  const Siang := "Selamat siang"
  const Sore := "Selamat sore"
  const Malam := "Selamat malam"

  /** Greeting for an hour of the day: half-open bands starting at 5, 12, 15 and 18. */
  function Greeting(hour: int): (g: string)
    ensures g == Pagi || g == Siang || g == Sore || g == Malam
  {
    if 5 <= hour < 12 then Pagi
    else if 12 <= hour < 15 then Siang
    else if 15 <= hour < 18 then Sore
    else Malam
  }

  /** Each greeting is given exactly in its band of hours, in both directions. */
  lemma GreetingBands(hour: int)
    ensures Greeting(hour) == Pagi <==> 5 <= hour <= 11
    ensures Greeting(hour) == Siang <==> 12 <= hour <= 14
    ensures Greeting(hour) == Sore <==> 15 <= hour <= 17
    ensures Greeting(hour) == Malam <==> hour <= 4 || 18 <= hour
  {
  }

  /** The hours of one day that receive greeting `g`. */
  function HoursGreeted(g: string): set<int> {
    set h | 0 <= h < 24 && Greeting(h) == g
  }

  /** The four greetings split the 24 hours of a day between them: every hour gets exactly one. */
  lemma GreetingPartition()
    ensures forall h :: h in HoursGreeted(Pagi) <==> 5 <= h < 12
    ensures forall h :: h in HoursGreeted(Siang) <==> 12 <= h < 15
    ensures forall h :: h in HoursGreeted(Sore) <==> 15 <= h < 18
    ensures forall h :: h in HoursGreeted(Malam) <==> 0 <= h < 5 || 18 <= h < 24
    ensures forall h :: 0 <= h < 24 <==>
      h in HoursGreeted(Pagi) + HoursGreeted(Siang) + HoursGreeted(Sore) + HoursGreeted(Malam)
    ensures HoursGreeted(Pagi) !! HoursGreeted(Siang) && HoursGreeted(Pagi) !! HoursGreeted(Sore) &&
      HoursGreeted(Pagi) !! HoursGreeted(Malam) && HoursGreeted(Siang) !! HoursGreeted(Sore) &&
      HoursGreeted(Siang) !! HoursGreeted(Malam) && HoursGreeted(Sore) !! HoursGreeted(Malam)
  {
  }

  /** Within a day the greeting changes from one hour to the next only at 5, 12, 15 and 18. */
  lemma GreetingChangesOnlyAtBoundaries(h: int)
    requires 0 <= h < 23
    ensures Greeting(h) != Greeting(h + 1) <==> h + 1 == 5 || h + 1 == 12 || h + 1 == 15 || h + 1 == 18
  {
  }

  /** The Indonesian month names, indexed by `month - 1`. */
  const Months: seq<string> := ["Januari", "Februari", "Maret", "April", "Mei", "Juni",
                                "Juli", "Agustus", "September", "Oktober", "November", "Desember"]

  /** Distinct months get distinct names, so the printed name identifies the month. */
  lemma MonthNamesDistinct()
    ensures |Months| == 12
    ensures forall i, j :: 0 <= i < j < |Months| ==> Months[i] != Months[j]
  {
  }

  /** The fields of a Python `datetime` that the caption reads. */
  datatype Moment = Moment(year: int, month: int, day: int, hour: int, minute: int)

  /** The ranges Python's `datetime` guarantees for those fields. */
  predicate ValidMoment(t: Moment) {
    1 <= t.year <= 9999 && 1 <= t.month <= 12 && 1 <= t.day <= 31 &&
    0 <= t.hour < 24 && 0 <= t.minute < 60
  }

  /** `bulan[month - 1]`; distinct months give distinct names, so the printed name identifies the month. */
  function MonthName(month: int): (name: string)
    requires 1 <= month <= 12
    ensures forall i :: 0 <= i < |Months| && i != month - 1 ==> Months[i] != name
  {
    MonthNamesDistinct();
    Months[month - 1]
  }

  /**
   * The part of the caption after the `%s` slot: date, `HH:MM` and the zone name.
   * It holds no `%`, and it ends with the zero-padded time and " WIB".
   */
  function Stamp(t: Moment): (s: string)
    requires ValidMoment(t)
    ensures NoPercent(s)
    ensures |s| >= 9 && s[|s| - 9..] == TwoDigits(t.hour) + ":" + TwoDigits(t.minute) + " WIB"
  {
    var day, year := Decimal(t.day), Decimal(t.year);
    var hh, mm := TwoDigits(t.hour), TwoDigits(t.minute);
    assert forall i :: 0 <= i < |day| ==> day[i] != '%';
    assert forall i :: 0 <= i < |year| ==> year[i] != '%';
    assert forall i :: 0 <= i < |hh| ==> hh[i] != '%';
    assert forall i :: 0 <= i < |mm| ==> mm[i] != '%';
    assert NoPercent(Months[t.month - 1]);
    var s := " terbaru pada " + day + " " + MonthName(t.month) + " " + year + ", " + hh + ":" + mm + " WIB";
    assert s[|s| - 9..] == hh + ":" + mm + " WIB";
    s
  }

  /**
   * The caption laid out around a given greeting: the greeting, then
   * ", berikut laporan ", then the `%s` slot for the report name, then the stamp.
   */
  function CaptionWith(greeting: string, t: Moment): (c: string)
    requires ValidMoment(t)
    ensures |c| == |greeting| + 20 + |Stamp(t)|
    ensures c[..|greeting|] == greeting
    ensures c[|greeting|..|greeting| + 18] == ", berikut laporan "
    ensures c[|greeting| + 18..|greeting| + 20] == "%s"
    ensures c[|greeting| + 20..] == Stamp(t)
  {
    greeting + ", berikut laporan " + "%s" + Stamp(t)
  }

  /**
   * The caption built from ONE reading of the clock: the greeting at the front
   * and the `HH:MM` at the end come from the same moment.
   */
  function Caption(t: Moment): (c: string)
    requires ValidMoment(t)
    ensures |Greeting(t.hour)| + 9 <= |c| && c[..|Greeting(t.hour)|] == Greeting(t.hour)
    ensures c[|c| - 9..] == TwoDigits(t.hour) + ":" + TwoDigits(t.minute) + " WIB"
  {
    CaptionWith(Greeting(t.hour), t)
  }

  /**
   * The caption as the Python code builds it: `now` is read first and printed,
   * then `get_greeting()` reads the clock again (`later`) to pick the greeting.
   * The greeting follows `later` while the printed time follows `now`.
   */
  function CaptionTwoReads(now: Moment, later: Moment): (c: string)
    requires ValidMoment(now) && ValidMoment(later)
    ensures |Greeting(later.hour)| + 9 <= |c| && c[..|Greeting(later.hour)|] == Greeting(later.hour)
    ensures c[|c| - 9..] == TwoDigits(now.hour) + ":" + TwoDigits(now.minute) + " WIB"
  {
    CaptionWith(Greeting(later.hour), now)
  }

  /** Two clock reads a minute apart across 12:00 print 11:59 under "Selamat siang". */
  lemma TwoReadsDisagree()
    ensures var now, later := Moment(2025, 6, 2, 11, 59), Moment(2025, 6, 2, 12, 0);
      ValidMoment(now) && ValidMoment(later) &&
      CaptionTwoReads(now, later)[..|Siang|] == Siang &&
      Greeting(11) == Pagi &&
      CaptionTwoReads(now, later) != Caption(now)
  {
  }

  predicate NoPercent(s: string) {
    '%' !in s
  }

  /**
   * Around any greeting without `%`, the caption holds exactly one `%`, and it
   * starts the `%s` slot right after ", berikut laporan ".
   */
  lemma PlaceholderWith(greeting: string, t: Moment)
    requires ValidMoment(t) && NoPercent(greeting)
    ensures var c, k := CaptionWith(greeting, t), |greeting| + 18;
      k + 2 <= |c| && c[k..k + 2] == "%s" && forall i :: 0 <= i < |c| && c[i] == '%' ==> i == k
  {
    var c, k := CaptionWith(greeting, t), |greeting| + 18;
    var lead := greeting + ", berikut laporan ";
    assert c == lead + "%s" + Stamp(t);
    assert NoPercent(lead);
    forall i | 0 <= i < |c| && i != k
      ensures c[i] != '%'
    {
      if i < k {
        assert c[i] == lead[i];
      } else if i >= k + 2 {
        assert c[i] == Stamp(t)[i - k - 2];
      } else {
        assert c[i] == 's';
      }
    }
  }

  /** The caption of one clock reading has its only `%` at the start of the `%s` slot after the greeting. */
  lemma CaptionPlaceholder(t: Moment)
    requires ValidMoment(t)
    ensures var c, k := Caption(t), |Greeting(t.hour) + ", berikut laporan "|;
      k + 2 <= |c| && c[..k] == Greeting(t.hour) + ", berikut laporan " && c[k..k + 2] == "%s" &&
      forall i :: 0 <= i < |c| && c[i] == '%' ==> i == k
  {
    assert NoPercent(Greeting(t.hour));
    PlaceholderWith(Greeting(t.hour), t);
  }

  /** The caption the code builds from two clock reads also has its only `%` at the start of the `%s` slot. */
  lemma TwoReadsPlaceholder(now: Moment, later: Moment)
    requires ValidMoment(now) && ValidMoment(later)
    ensures var c, k := CaptionTwoReads(now, later), |Greeting(later.hour) + ", berikut laporan "|;
      k + 2 <= |c| && c[..k] == Greeting(later.hour) + ", berikut laporan " && c[k..k + 2] == "%s" &&
      forall i :: 0 <= i < |c| && c[i] == '%' ==> i == k
  {
    assert NoPercent(Greeting(later.hour));
    PlaceholderWith(Greeting(later.hour), now);
  }

  /** The caption ends with the printed `HH:MM` and " WIB"; the greeting matches the printed hour. */
  lemma CaptionClock(t: Moment)
    requires ValidMoment(t)
    ensures |Caption(t)| >= 9
    ensures var c := Caption(t); var hh, mm := c[|c| - 9..|c| - 7], c[|c| - 6..|c| - 4];
      AllDigits(hh) && AllDigits(mm) && ValueOf(hh) == t.hour && ValueOf(mm) == t.minute &&
      c[|c| - 7] == ':' && c[|c| - 4..] == " WIB" &&
      c[..|Greeting(ValueOf(hh))|] == Greeting(ValueOf(hh))
  {
    var c := Caption(t);
    var tail := TwoDigits(t.hour) + ":" + TwoDigits(t.minute) + " WIB";
    assert |tail| == 9;
    assert c[|c| - 9..] == tail;
    assert c[|c| - 9..|c| - 7] == TwoDigits(t.hour);
    assert c[|c| - 6..|c| - 4] == TwoDigits(t.minute);
  }

  /** Prefixes `p` to a formatted string, passing a failure through. */
  function Prepend(p: string, o: Option<string>): Option<string> {
    match o
    case None => None
    case Some(s) => Some(p + s)
  }

  /**
   * Python's `fmt % arg` for one string argument, for format strings built from
   * literal characters, `%%` and `%s`: `None` stands for the TypeError raised
   * when the string has no `%s` or more than one, and for a `%` the model does not
   * cover (any other conversion, or a lone `%` at the end).
   */
  function Interpolate(fmt: string, arg: string, used: bool): (r: Option<string>)
    ensures NoPercent(fmt) ==> r == if used then Some(fmt) else None
    decreases |fmt|
  {
    if fmt == [] then (if used then Some([]) else None)
    else if fmt[0] != '%' then
      assert forall x :: x in fmt[1..] ==> x in fmt;
      assert [fmt[0]] + fmt[1..] == fmt;
      Prepend([fmt[0]], Interpolate(fmt[1..], arg, used))
    else if |fmt| >= 2 && fmt[1] == '%' then Prepend("%", Interpolate(fmt[2..], arg, used))
    else if |fmt| >= 2 && fmt[1] == 's' && !used then Prepend(arg, Interpolate(fmt[2..], arg, true))
    else None
  }

  /** `fmt % arg`; a format without any `%` fails ("not all arguments converted"). */
  function Format(fmt: string, arg: string): (r: Option<string>)
    ensures NoPercent(fmt) ==> r == None
  {
    Interpolate(fmt, arg, false)
  }

  /** Literal text without `%` is copied through unchanged. */
  lemma {:induction false} InterpolateLiteral(p: string, q: string, arg: string, used: bool)
    requires NoPercent(p)
    ensures Interpolate(p + q, arg, used) == Prepend(p, Interpolate(q, arg, used))
    decreases |p|
  {
    if p == [] {
      assert p + q == q;
      match Interpolate(q, arg, used)
      case None =>
      case Some(s) => assert p + s == s;
    } else {
      assert p[0] in p;
      assert (p + q)[0] == p[0] && (p + q)[1..] == p[1..] + q;
      assert Interpolate(p + q, arg, used) == Prepend([p[0]], Interpolate(p[1..] + q, arg, used));
      assert forall x :: x in p[1..] ==> x in p;
      InterpolateLiteral(p[1..], q, arg, used);
      match Interpolate(q, arg, used)
      case None =>
      case Some(s) => assert [p[0]] + (p[1..] + s) == p + s;
    }
  }

  /** A format string with exactly one `%s` and no other `%` substitutes `arg` into that slot. */
  lemma FormatSingleSlot(p: string, q: string, arg: string)
    requires NoPercent(p) && NoPercent(q)
    ensures Format(p + "%s" + q, arg) == Some(p + arg + q)
  {
    assert p + "%s" + q == p + ("%s" + q);
    InterpolateLiteral(p, "%s" + q, arg, false);
    assert ("%s" + q)[2..] == q;
    InterpolateLiteral(q, [], arg, true);
    assert q + [] == q;
    assert Interpolate(q, arg, true) == Some(q);
    assert Interpolate("%s" + q, arg, false) == Some(arg + q);
    assert p + (arg + q) == p + arg + q;
  }

  /** Filling the slot of a caption around any greeting without `%` succeeds and puts the report name in the slot. */
  lemma FillWith(greeting: string, t: Moment, report: string)
    requires ValidMoment(t) && NoPercent(greeting)
    ensures Format(CaptionWith(greeting, t), report) == Some(greeting + ", berikut laporan " + report + Stamp(t))
  {
    var lead := greeting + ", berikut laporan ";
    assert NoPercent(lead);
    assert CaptionWith(greeting, t) == lead + "%s" + Stamp(t);
    FormatSingleSlot(lead, Stamp(t), report);
  }

  /**
   * Filling the slot of the one-read caption (`caption % "MSA/WSA"`,
   * `caption % "PI LATEN"`) succeeds and puts the report name right after
   * "berikut laporan ".
   */
  lemma CaptionFill(t: Moment, report: string)
    requires ValidMoment(t)
    ensures Format(Caption(t), report) == Some(Greeting(t.hour) + ", berikut laporan " + report + Stamp(t))
  {
    assert NoPercent(Greeting(t.hour));
    FillWith(Greeting(t.hour), t, report);
  }

  /** Filling the slot of the caption the code builds from two clock reads succeeds too. */
  lemma TwoReadsFill(now: Moment, later: Moment, report: string)
    requires ValidMoment(now) && ValidMoment(later)
    ensures Format(CaptionTwoReads(now, later), report) ==
      Some(Greeting(later.hour) + ", berikut laporan " + report + Stamp(now))
  {
    assert NoPercent(Greeting(later.hour));
    FillWith(Greeting(later.hour), now, report);
  }
}
