/**
  The daily arming schedule: a spec such as "22:00-06:00,12:30-13:30" is parsed
  into daily windows, and the camera is armed when the time of day falls in one
  of them (or always, when no window was parsed).
*/
module Schedule {
  import opened Wrappers
  import opened PyText

  const MicrosPerMinute: nat := 60_000_000
  const MinutesPerDay: nat := 1440
  const DayMicros: nat := 86_400_000_000

  /** The current local time of day (`datetime.now().time()`), as microseconds since midnight. */
  type TimeOfDay = t: int | 0 <= t < DayMicros

  /** A parsed `time(h, m)`, as minutes since midnight. */
  type MinuteOfDay = m: int | 0 <= m < MinutesPerDay

  /** The instant a minute of the day begins. */
  function MinuteStart(m: MinuteOfDay): TimeOfDay {
    m * MicrosPerMinute
  }

  /** `_parse_hhmm`: split at the first ':' and build `time(int(h), int(m))`; None where that raises. */
  function ParseHHMM(s: string): (r: Option<MinuteOfDay>)
    ensures ':' !in s ==> r.None?
  {
    match SplitOnce(s, ':')
    case None => None
    case Some((hs, ms)) =>
      var h, m := ParseInt(hs), ParseInt(ms);
      if h.Some? && m.Some? && 0 <= h.value < 24 && 0 <= m.value < 60 then
        Some(h.value * 60 + m.value)
      else None
  }

  /** A daily window, start inclusive and end exclusive; it wraps past midnight when end <= start. */
  datatype DailyWindow = DailyWindow(start: MinuteOfDay, end: MinuteOfDay) {

    /** `DailyWindow.contains`, comparing the window's `time` bounds with the current time of day. */
    predicate Contains(t: TimeOfDay) {
      if end > start then MinuteStart(start) <= t < MinuteStart(end)
      else t >= MinuteStart(start) || t < MinuteStart(end)
    }

    /** How long the window stays open, going clockwise from start to end; end == start is a full day. */
    function Length(): (n: nat)
      ensures 0 < n <= DayMicros
      ensures n == DayMicros <==> start == end
    {
      if end > start then MinuteStart(end) - MinuteStart(start)
      else DayMicros - MinuteStart(start) + MinuteStart(end)
    }
  }

  /** Clockwise distance on the 24-hour clock from `a` to `b`. */
  function Elapsed(a: TimeOfDay, b: TimeOfDay): (d: nat)
    ensures d < DayMicros
  {
    (b - a) % DayMicros
  }

  /** A window holds exactly the times less than its length past its start, on the circular clock. */
  lemma ContainsIffWithinArc(w: DailyWindow, t: TimeOfDay)
    ensures w.Contains(t) <==> Elapsed(MinuteStart(w.start), t) < w.Length()
  {
    var s := MinuteStart(w.start);
    if t >= s {
      assert Elapsed(s, t) == t - s;
    } else {
      assert Elapsed(s, t) == t - s + DayMicros;
    }
  }

  /** A window whose end equals its start is open the whole day. */
  lemma EqualEndsCoverWholeDay(w: DailyWindow, t: TimeOfDay)
    requires w.start == w.end
    ensures w.Contains(t)
  {
  }

  /** One comma fragment of the spec: stripped, skipped when empty, cut at its first '-', both halves parsed. */
  function ParseWindow(part: string): (r: Option<DailyWindow>)
    ensures Strip(part) == [] ==> r.None?
  {
    var p := Strip(part);
    if p == [] then None
    else
      match SplitOnce(p, '-')
      case None => None
      case Some((a, b)) =>
        var start, end := ParseHHMM(a), ParseHHMM(b);
        if start.Some? && end.Some? then Some(DailyWindow(start.value, end.value))
        else None
  }

  /** A fragment without '-' is skipped. */
  lemma NoDashRejected(part: string)
    requires '-' !in part
    ensures ParseWindow(part).None?
  {
    StripOmits(part, '-');
  }

  /** The `Some` results of `f` over `xs`, in order: a loop that `continue`s past the failures. */
  function FilterMap<A, B>(f: A -> Option<B>, xs: seq<A>): (ys: seq<B>)
    ensures |ys| <= |xs|
  {
    if xs == [] then []
    else Kept(f(xs[0])) + FilterMap(f, xs[1..])
  }

  /** The value an `Option` holds, as a sequence of at most one element. */
  function Kept<B>(o: Option<B>): (ys: seq<B>)
    ensures o.Some? ==> ys == [o.value]
    ensures o.None? ==> ys == []
  {
    match o case Some(y) => [y] case None => []
  }

  /** Filtering a concatenation filters each part: the kept results keep their order. */
  lemma {:induction false} FilterMapAppend<A, B>(f: A -> Option<B>, xs: seq<A>, ys: seq<A>)
    ensures FilterMap(f, xs + ys) == FilterMap(f, xs) + FilterMap(f, ys)
  {
    if xs != [] {
      FilterMapAppend(f, xs[1..], ys);
      assert (xs + ys)[0] == xs[0];
      assert (xs + ys)[1..] == xs[1..] + ys;
      var head := Kept(f(xs[0]));
      assert FilterMap(f, xs + ys) == head + FilterMap(f, xs[1..] + ys);
      assert FilterMap(f, xs) == head + FilterMap(f, xs[1..]);
    } else {
      assert xs + ys == ys;
    }
  }

  /** Filtering one more element appends its result, if any. */
  lemma FilterMapSnoc<A, B>(f: A -> Option<B>, xs: seq<A>, x: A)
    ensures FilterMap(f, xs + [x]) == FilterMap(f, xs) + Kept(f(x))
  {
    FilterMapAppend(f, xs, [x]);
    assert FilterMap(f, [x]) == Kept(f(x)) + FilterMap(f, []);
  }

  /** The loop over the fragments: parse each in turn, append what parses and `continue` past the rest. */
  method CollectParsed<A, B>(parse: A -> Option<B>, parts: seq<A>) returns (kept: seq<B>)
    ensures kept == FilterMap(parse, parts)
  {
    kept := [];
    for i := 0 to |parts|
      invariant kept == FilterMap(parse, parts[..i])
    {
      var found := parse(parts[i]);
      FilterMapSnoc(parse, parts[..i], parts[i]);
      assert parts[..i + 1] == parts[..i] + [parts[i]];
      if found.Some? {
        kept := kept + [found.value];
      }
    }
    assert parts[..|parts|] == parts;
  }

  /** The windows `DailySchedule(spec)` ends up with. */
  function ParseSpec(spec: string): seq<DailyWindow>
  {
    var s := Strip(spec);
    if s == [] then [] else FilterMap(ParseWindow, Split(s, ','))
  }

  /** A fragment that does not parse, an empty one included, contributes nothing. */
  lemma UnparsableFragmentSkipped(ps: seq<string>, p: string, qs: seq<string>)
    requires ParseWindow(p).None?
    ensures FilterMap(ParseWindow, ps + [p] + qs) == FilterMap(ParseWindow, ps + qs)
  {
    FilterMapAppend(ParseWindow, ps + [p], qs);
    FilterMapAppend(ParseWindow, ps, [p]);
    FilterMapAppend(ParseWindow, ps, qs);
  }

  /** An empty or whitespace-only spec yields no window. */
  lemma BlankSpecHasNoWindows(spec: string)
    requires forall k :: 0 <= k < |spec| ==> IsSpace(spec[k])
    ensures ParseSpec(spec) == []
  {
    StripEmptyIffAllSpace(spec);
  }

  /** `any(w.contains(t) for w in windows)`. */
  function AnyContains(windows: seq<DailyWindow>, t: TimeOfDay): (found: bool)
    ensures found <==> exists k :: 0 <= k < |windows| && windows[k].Contains(t)
  {
    if windows == [] then false
    else if windows[0].Contains(t) then true
    else
      var found := AnyContains(windows[1..], t);
      assert forall k :: 1 <= k < |windows| ==> windows[k] == windows[1..][k - 1];
      found
  }

  /** Whether a schedule with these windows arms the service at time of day `t`. */
  function ActiveAt(windows: seq<DailyWindow>, t: TimeOfDay): bool {
    windows == [] || AnyContains(windows, t)
  }

  /** The parsed schedule; the clock is read by the caller and passed in. */
  class DailySchedule {
    var windows: seq<DailyWindow>

    /** `DailySchedule.__init__`: one pass over the comma fragments, keeping those that parse. */
    constructor (spec: string)
      ensures windows == ParseSpec(spec)
    {
      windows := [];
      new;
      var s := Strip(spec);
      if s != [] {
        windows := CollectParsed(ParseWindow, Split(s, ','));
      }
    }

    /** `is_active_now` at time of day `t`: armed when no window was parsed, else when some window holds `t`. */
    function IsActiveNow(t: TimeOfDay): (active: bool)
      reads this
      ensures active <==> windows == [] || exists k :: 0 <= k < |windows| && windows[k].Contains(t)
    {
      ActiveAt(windows, t)
    }
  }

  /** `time(h, m).strftime("%H:%M")`. */
  function FormatHHMM(t: MinuteOfDay): (s: string)
    ensures |s| == 5 && s[2] == ':'
  {
    var h, m := t / 60, t % 60;
    [DigitChar(h / 10), DigitChar(h % 10), ':', DigitChar(m / 10), DigitChar(m % 10)]
  }

  /** Two decimal digits parse to the number they spell. */
  lemma ParseTwoDigits(d1: nat, d0: nat)
    requires d1 < 10 && d0 < 10
    ensures ParseInt([DigitChar(d1), DigitChar(d0)]) == Some(d1 * 10 + d0)
  {
    var s := [DigitChar(d1), DigitChar(d0)];
    StripNoEdgeSpace(s);
    assert UnderscoresBeforeDigits(s[1..]);
    assert IsDigitGroup(s);
    assert s[..1] == [DigitChar(d1)];
    assert [DigitChar(d1)][..0] == [];
    assert DigitsValue([DigitChar(d1)]) == d1;
  }

  /** Round trip: every minute of the day, written as "HH:MM", parses back to itself. */
  lemma ParseFormatHHMM(t: MinuteOfDay)
    ensures ParseHHMM(FormatHHMM(t)) == Some(t)
  {
    var h, m := t / 60, t % 60;
    var hs, ms := [DigitChar(h / 10), DigitChar(h % 10)], [DigitChar(m / 10), DigitChar(m % 10)];
    assert FormatHHMM(t) == hs + [':'] + ms;
    SplitOnceFirst(hs, ':', ms);
    ParseTwoDigits(h / 10, h % 10);
    ParseTwoDigits(m / 10, m % 10);
  }

  /** Round trip: every window, written as "HH:MM-HH:MM", parses back to itself. */
  lemma ParseFormatWindow(w: DailyWindow)
    ensures ParseWindow(FormatHHMM(w.start) + "-" + FormatHHMM(w.end)) == Some(w)
  {
    var a, b := FormatHHMM(w.start), FormatHHMM(w.end);
    var part := a + "-" + b;
    assert IsDigit(part[0]) && IsDigit(part[|part| - 1]);
    StripNoEdgeSpace(part);
    assert '-' !in a;
    SplitOnceFirst(a, '-', b);
    ParseFormatHHMM(w.start);
    ParseFormatHHMM(w.end);
  }

  /** A seconds field makes the text fail: the minute half "MM:SS" is not an integer. */
  lemma SecondsFieldRejected(t: MinuteOfDay, s1: nat, s0: nat)
    requires s1 < 10 && s0 < 10
    ensures ParseHHMM(FormatHHMM(t) + [':', DigitChar(s1), DigitChar(s0)]) == None
  {
    var f := FormatHHMM(t);
    var hs, ms := f[..2], f[3..] + [':', DigitChar(s1), DigitChar(s0)];
    assert f + [':', DigitChar(s1), DigitChar(s0)] == hs + [':'] + ms;
    SplitOnceFirst(hs, ':', ms);
    assert IsDigit(ms[0]) && IsDigit(ms[4]);
    StripNoEdgeSpace(ms);
    StrayCharNotInt(ms, 2);
  }

  /** Only the first '-' separates start from end, so a third time ends up in the end half and fails. */
  lemma ExtraDashRejected(w: DailyWindow, t: MinuteOfDay)
    ensures ParseWindow(FormatHHMM(w.start) + "-" + FormatHHMM(w.end) + "-" + FormatHHMM(t)) == None
  {
    var a, b, c := FormatHHMM(w.start), FormatHHMM(w.end), FormatHHMM(t);
    var part := a + "-" + b + "-" + c;
    assert IsDigit(part[0]) && IsDigit(part[|part| - 1]);
    StripNoEdgeSpace(part);
    var rest := b + "-" + c;
    assert part == a + ['-'] + rest;
    SplitOnceFirst(a, '-', rest);
    var ms := b[3..] + "-" + c;
    assert rest == b[..2] + [':'] + ms;
    SplitOnceFirst(b[..2], ':', ms);
    assert IsDigit(ms[0]) && IsDigit(ms[|ms| - 1]);
    StripNoEdgeSpace(ms);
    StrayCharNotInt(ms, 2);
  }

  /** An hour that `int` reads but that lies outside 0..23 makes `time()` raise, so the text is rejected whatever follows the ':'. */
  lemma HourOutOfRangeRejected(hs: string, ms: string, h: int)
    requires ':' !in hs && ParseInt(hs) == Some(h) && !(0 <= h < 24)
    ensures ParseHHMM(hs + [':'] + ms) == None
  {
    SplitOnceFirst(hs, ':', ms);
  }

  /** A minute that `int` reads but that lies outside 0..59 makes `time()` raise, so the text is rejected whatever the hour. */
  lemma MinuteOutOfRangeRejected(hs: string, ms: string, m: int)
    requires ':' !in hs && ParseInt(ms) == Some(m) && !(0 <= m < 60)
    ensures ParseHHMM(hs + [':'] + ms) == None
  {
    SplitOnceFirst(hs, ':', ms);
  }

  /** For instance "24:00" and "07:60" are rejected. */
  lemma OutOfRangeExamples()
    ensures ParseHHMM("24:00") == None && ParseHHMM("07:60") == None
  {
    assert DigitChar(0) == '0' && DigitChar(2) == '2' && DigitChar(4) == '4' && DigitChar(6) == '6' && DigitChar(7) == '7';
    ParseTwoDigits(2, 4);
    ParseTwoDigits(6, 0);
    assert "24:00" == "24" + [':'] + "00";
    assert "07:60" == "07" + [':'] + "60";
    HourOutOfRangeRejected("24", "00", 24);
    MinuteOutOfRangeRejected("07", "60", 60);
  }
}
