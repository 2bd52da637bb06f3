/**
 * The weekly schedule ("crono") codec of the compiled build: the `CCG` read command, the
 * reply parser and the `CCS` write frame.
 *
 * A `CCG` reply is a frame of at least 73 fields: the tag, a counter, the period, then for
 * each of the 7 days its number and 3 slots of (start, end, enabled). A `CCS` write frame
 * carries the same fields in the same order after its counter and period.
 */
module Crono {
  import opened Wrappers
  import opened JsText
  import opened Numbers

  datatype CronoSlot = CronoSlot(start: string, end: string, enabled: bool)
  datatype CronoDay = CronoDay(dayNumber: Number, slots: seq<CronoSlot>)
  datatype CronoSchedule = CronoSchedule(periodo: Number, days: seq<CronoDay>, rawResponse: string)

  const Days: nat := 7
  const SlotsPerDay: nat := 3
  /** Three header fields and ten per day. */
  const MinParts: nat := 73

  function BuildCCGCommand(): (r: string)
    ensures r == Frame(["CCG", "0"])
  {
    Frame2("CCG", "0");
    "[\"CCG\",\"0\"]"
  }

  /** `s.substring(0, n)`. */
  function Prefix(s: string, n: nat): (r: string)
    ensures |r| == if |s| <= n then |s| else n
    ensures r == s[..|r|]
  {
    if |s| <= n then s else s[..n]
  }

  // ---------------------------------------------------------------- reading a reply

  /** The field holding slot `s` of day `d`: start, end and enabled follow one another. */
  function SlotIndex(d: nat, s: nat): nat {
    4 + 10 * d + 3 * s
  }

  function DayIndex(d: nat): nat {
    3 + 10 * d
  }

  /** Slot `s` of day `d` as the parser reads it. */
  function SlotAt(parts: seq<string>, d: nat, s: nat): (r: CronoSlot)
    requires |parts| >= MinParts && d < Days && s < SlotsPerDay
    ensures r.start == Prefix(parts[SlotIndex(d, s)], 5) && r.end == Prefix(parts[SlotIndex(d, s) + 1], 5)
    ensures r.enabled <==> |parts[SlotIndex(d, s) + 2]| > 0 && parts[SlotIndex(d, s) + 2][0] == '1'
  {
    var i := SlotIndex(d, s);
    CronoSlot(Prefix(parts[i], 5), Prefix(parts[i + 1], 5), Prefix(parts[i + 2], 1) == "1")
  }

  /** The three slots of day `d`. */
  function SlotsOf(parts: seq<string>, d: nat): (r: seq<CronoSlot>)
    requires |parts| >= MinParts && d < Days
    ensures |r| == SlotsPerDay && forall s :: 0 <= s < SlotsPerDay ==> r[s] == SlotAt(parts, d, s)
  {
    seq(SlotsPerDay, s requires 0 <= s < SlotsPerDay => SlotAt(parts, d, s))
  }

  function DayAt(parts: seq<string>, d: nat): (r: CronoDay)
    requires |parts| >= MinParts && d < Days
    ensures r.dayNumber == ParseDecimal(parts[DayIndex(d)]) && r.slots == SlotsOf(parts, d)
  {
    CronoDay(ParseDecimal(parts[DayIndex(d)]), SlotsOf(parts, d))
  }

  /** The schedule a reply describes, once it has passed the tag and length checks. */
  function ScheduleOf(parts: seq<string>, raw: string): CronoSchedule
    requires |parts| >= MinParts
  {
    CronoSchedule(ParseDecimal(parts[2]), DaysOf(parts), Trim(raw))
  }

  /** The seven days of a reply. */
  function DaysOf(parts: seq<string>): (r: seq<CronoDay>)
    requires |parts| >= MinParts
    ensures |r| == Days && forall d :: 0 <= d < Days ==> r[d] == DayAt(parts, d)
  {
    seq(Days, d requires 0 <= d < Days => DayAt(parts, d))
  }

  /** parseCCGResponse as a function of the reply. */
  function ScheduleFromResponse(raw: string): (r: Option<CronoSchedule>)
    ensures r.None? <==> Fields(raw, "CCG").None? || |Fields(raw, "CCG").value| < MinParts
    ensures r.Some? ==> r.value == ScheduleOf(Fields(raw, "CCG").value, raw)
  {
    match Fields(raw, "CCG")
    case None => None
    case Some(parts) => if |parts| < MinParts then None else Some(ScheduleOf(parts, raw))
  }

  /**
   * A parsed schedule has seven days of three slots each; its period, day numbers and slots
   * come from the fields at their fixed positions.
   */
  lemma ScheduleLayout(raw: string)
    requires ScheduleFromResponse(raw).Some?
    ensures var sc := ScheduleFromResponse(raw).value;
      var parts := Fields(raw, "CCG").value;
      |sc.days| == Days && sc.periodo == ParseDecimal(parts[2]) && sc.rawResponse == Trim(raw)
      && (forall d :: 0 <= d < Days ==>
            |sc.days[d].slots| == SlotsPerDay && sc.days[d].dayNumber == ParseDecimal(parts[DayIndex(d)]))
      && (forall d, s :: 0 <= d < Days && 0 <= s < SlotsPerDay ==> sc.days[d].slots[s] == SlotAt(parts, d, s))
  {
    var sc := ScheduleFromResponse(raw).value;
    var parts := Fields(raw, "CCG").value;
    assert sc == ScheduleOf(parts, raw);
  }

  /**
   * parseCCGResponse: walks a pointer through the fields, reading each day's number and then
   * its three slots.
   */
  method ParseCCGResponse(raw: string) returns (r: Option<CronoSchedule>)
    ensures r == ScheduleFromResponse(raw)
  {
    var fields := Fields(raw, "CCG");
    if fields.None? {
      return None;
    }
    var parts := fields.value;
    if |parts| < MinParts {
      return None;
    }
    var periodo := ParseDecimal(parts[2]);
    var days: seq<CronoDay> := [];
    var ptr := 3;
    var d := 0;
    while d < Days
      invariant 0 <= d <= Days && ptr == DayIndex(d)
      invariant days == DaysOf(parts)[..d]
    {
      var dayNumber := ParseDecimal(parts[ptr]);
      ptr := ptr + 1;
      var slots: seq<CronoSlot> := [];
      var s := 0;
      while s < SlotsPerDay
        invariant 0 <= s <= SlotsPerDay && ptr == SlotIndex(d, s)
        invariant slots == SlotsOf(parts, d)[..s]
      {
        var slot := CronoSlot(Prefix(parts[ptr], 5), Prefix(parts[ptr + 1], 5), Prefix(parts[ptr + 2], 1) == "1");
        assert slot == SlotsOf(parts, d)[s];
        PrefixStep(SlotsOf(parts, d), s);
        slots := slots + [slot];
        ptr := ptr + 3;
        s := s + 1;
      }
      assert slots == SlotsOf(parts, d);
      var day := CronoDay(dayNumber, slots);
      assert day == DaysOf(parts)[d];
      PrefixStep(DaysOf(parts), d);
      days := days + [day];
      d := d + 1;
    }
    assert days == DaysOf(parts);
    r := Some(CronoSchedule(periodo, days, Trim(raw)));
  }

  /** One more element of a sequence extends its prefix. */
  lemma PrefixStep<T>(xs: seq<T>, i: nat)
    requires i < |xs|
    ensures xs[..i + 1] == xs[..i] + [xs[i]]
  {
  }

  // ---------------------------------------------------------------- writing a schedule

  function EnabledText(enabled: bool): string {
    if enabled then "1" else "0"
  }

  /** The fields a slot is written as. */
  function SlotFields(slots: seq<CronoSlot>): (r: seq<string>)
    ensures |r| == 3 * |slots|
  {
    if |slots| == 0 then []
    else
      var last := slots[|slots| - 1];
      SlotFields(slots[..|slots| - 1]) + [last.start, last.end, EnabledText(last.enabled)]
  }

  /** The fields the days are written as: each day's number, then its slots. */
  function DayFields(days: seq<CronoDay>): seq<string> {
    if |days| == 0 then []
    else
      var last := days[|days| - 1];
      DayFields(days[..|days| - 1]) + [NumberText(last.dayNumber)] + SlotFields(last.slots)
  }

  /** `newPeriodo ?? schedule.periodo`. */
  function PeriodoOf(schedule: CronoSchedule, newPeriodo: Option<Number>): Number {
    if newPeriodo.Some? then newPeriodo.value else schedule.periodo
  }

  /** The CCS frame as a list of fields: tag, counter, period, then the days. */
  function CCSFields(schedule: CronoSchedule, newPeriodo: Option<Number>): (r: seq<string>)
    ensures |r| >= 3 && r[0] == "CCS" && r[1] == NumberText(Num(1 + 10 * |schedule.days|))
    ensures r[2] == NumberText(PeriodoOf(schedule, newPeriodo))
    ensures r[3..] == DayFields(schedule.days)
  {
    ["CCS", NumberText(Num(1 + 10 * |schedule.days|)), NumberText(PeriodoOf(schedule, newPeriodo))]
    + DayFields(schedule.days)
  }

  /** Text appended for each field after the first: `,"field"`. */
  function Body(fs: seq<string>): string {
    if |fs| == 0 then "" else Body(fs[..|fs| - 1]) + ",\"" + fs[|fs| - 1] + "\""
  }

  /** The text one slot adds to the body: `,"start","end","1|0"`. */
  function SlotText(slot: CronoSlot): string {
    ",\"" + slot.start + "\",\"" + slot.end + "\",\"" + EnabledText(slot.enabled) + "\""
  }

  /**
   * buildCCSFromSchedule: accumulates the body field by field and counts ten per day, then
   * writes the counter and the period in front.
   */
  method BuildCCSFromSchedule(schedule: CronoSchedule, newPeriodo: Option<Number>) returns (r: string)
    ensures r == Frame(CCSFields(schedule, newPeriodo))
  {
    var periodo := if newPeriodo.Some? then newPeriodo.value else schedule.periodo;
    var contatore := 1;
    var body := "";
    var i := 0;
    while i < |schedule.days|
      invariant 0 <= i <= |schedule.days| && contatore == 1 + 10 * i
      invariant body == Body(DayFields(schedule.days[..i]))
    {
      var day := schedule.days[i];
      var fs := DayFields(schedule.days[..i]) + [NumberText(day.dayNumber)];
      BodySnoc(DayFields(schedule.days[..i]), NumberText(day.dayNumber));
      body := body + ",\"" + NumberText(day.dayNumber) + "\"";
      var j := 0;
      SlotsNone(fs, day.slots);
      while j < |day.slots|
        invariant 0 <= j <= |day.slots|
        invariant body == Body(fs + SlotFields(day.slots[..j]))
      {
        SlotStep(fs, day.slots, j);
        body := body + SlotText(day.slots[j]);
        j := j + 1;
      }
      DayStep(schedule.days, i);
      contatore := contatore + 10;
      i := i + 1;
    }
    assert schedule.days[..i] == schedule.days;
    var tag, count, period := "CCS", NumberText(Num(contatore)), NumberText(periodo);
    r := "[\"" + tag + "\",\"" + count + "\",\"" + period + "\"" + body + "]";
    CCSFrameText(schedule, newPeriodo);
  }

  /** The CCS frame is its three header fields followed by the body of the day fields. */
  lemma CCSFrameText(schedule: CronoSchedule, newPeriodo: Option<Number>)
    ensures Frame(CCSFields(schedule, newPeriodo))
         == "[\"" + "CCS" + "\",\"" + NumberText(Num(1 + 10 * |schedule.days|)) + "\",\""
            + NumberText(PeriodoOf(schedule, newPeriodo)) + "\"" + Body(DayFields(schedule.days)) + "]"
  {
    var hd := ["CCS", NumberText(Num(1 + 10 * |schedule.days|)), NumberText(PeriodoOf(schedule, newPeriodo))];
    assert CCSFields(schedule, newPeriodo) == hd + DayFields(schedule.days);
    FrameBody(hd, DayFields(schedule.days));
  }

  lemma SlotsNone(fs: seq<string>, slots: seq<CronoSlot>)
    ensures fs + SlotFields(slots[..0]) == fs
  {
    assert slots[..0] == [];
  }

  /** The next slot adds its text to the body. */
  lemma SlotStep(fs: seq<string>, slots: seq<CronoSlot>, j: nat)
    requires j < |slots|
    ensures Body(fs + SlotFields(slots[..j + 1])) == Body(fs + SlotFields(slots[..j])) + SlotText(slots[j])
  {
    var slot := slots[j];
    assert slots[..j + 1][..j] == slots[..j];
    assert fs + SlotFields(slots[..j + 1])
        == fs + SlotFields(slots[..j]) + [slot.start, slot.end, EnabledText(slot.enabled)];
    BodySlot(fs + SlotFields(slots[..j]), slot);
  }

  /** A day's number and all its slots make the fields of one more day. */
  lemma DayStep(days: seq<CronoDay>, i: nat)
    requires i < |days|
    ensures DayFields(days[..i]) + [NumberText(days[i].dayNumber)] + SlotFields(days[i].slots[..|days[i].slots|])
         == DayFields(days[..i + 1])
  {
    assert days[i].slots[..|days[i].slots|] == days[i].slots;
    assert days[..i + 1][..i] == days[..i];
  }

  /** One more field appends `,"field"` to the body. */
  lemma BodySnoc(fs: seq<string>, f: string)
    ensures Body(fs + [f]) == Body(fs) + ",\"" + f + "\""
  {
    assert (fs + [f])[..|fs|] == fs;
  }

  /** A slot appends three fields to the body. */
  lemma BodySlot(fs: seq<string>, slot: CronoSlot)
    ensures Body(fs + [slot.start, slot.end, EnabledText(slot.enabled)]) == Body(fs) + SlotText(slot)
  {
    var a, b, c := slot.start, slot.end, EnabledText(slot.enabled);
    assert fs + [a, b, c] == ((fs + [a]) + [b]) + [c];
    BodySnoc(fs, a);
    BodySnoc(fs + [a], b);
    BodySnoc((fs + [a]) + [b], c);
    SlotConcat(Body(fs), a, b, c);
  }

  lemma SlotConcat(x: string, a: string, b: string, c: string)
    ensures x + ",\"" + a + "\"" + ",\"" + b + "\"" + ",\"" + c + "\""
         == x + (",\"" + a + "\",\"" + b + "\",\"" + c + "\"")
  {
  }

  /** Joining one more field puts a separator before it. */
  lemma {:induction false} JoinSnoc(xs: seq<string>, f: string)
    requires |xs| >= 1
    ensures Join(xs + [f]) == Join(xs) + Sep + f
    decreases |xs|
  {
    if |xs| == 1 {
      assert (xs + [f])[1..] == [f];
    } else {
      assert (xs + [f])[1..] == xs[1..] + [f];
      JoinSnoc(xs[1..], f);
    }
  }

  /** A frame is its header written out followed by the body of the remaining fields. */
  lemma {:induction false} JoinBody(hd: seq<string>, fs: seq<string>)
    requires |hd| >= 1
    ensures Join(hd + fs) + "\"" == Join(hd) + "\"" + Body(fs)
    decreases |fs|
  {
    if |fs| == 0 {
      assert hd + fs == hd;
    } else {
      var init, f := fs[..|fs| - 1], fs[|fs| - 1];
      assert hd + fs == (hd + init) + [f];
      JoinSnoc(hd + init, f);
      JoinBody(hd, init);
      calc {
        Join(hd + fs) + "\"";
        Join(hd + init) + Sep + f + "\"";
        { SepSplit(Join(hd + init), f); }
        (Join(hd + init) + "\"") + ",\"" + f + "\"";
        (Join(hd) + "\"" + Body(init)) + ",\"" + f + "\"";
        { RegroupField(Join(hd), Body(init), f); }
        Join(hd) + "\"" + (Body(init) + ",\"" + f + "\"");
        Join(hd) + "\"" + Body(fs);
      }
    }
  }

  lemma SepSplit(j: string, f: string)
    ensures j + Sep + f + "\"" == (j + "\"") + ",\"" + f + "\""
  {
  }

  lemma RegroupField(j: string, b: string, f: string)
    ensures (j + "\"" + b) + ",\"" + f + "\"" == j + "\"" + (b + ",\"" + f + "\"")
  {
  }

  lemma Join3(hd: seq<string>)
    requires |hd| == 3
    ensures Join(hd) == hd[0] + Sep + (hd[1] + Sep + hd[2])
  {
    assert hd[1..] == [hd[1], hd[2]];
    assert hd[1..][1..] == [hd[2]];
    assert Join(hd[1..][1..]) == hd[2];
    assert Join(hd[1..]) == hd[1] + Sep + hd[2];
  }

  lemma FrameBody(hd: seq<string>, fs: seq<string>)
    requires |hd| == 3
    ensures Frame(hd + fs) == "[\"" + hd[0] + "\",\"" + hd[1] + "\",\"" + hd[2] + "\"" + Body(fs) + "]"
  {
    JoinBody(hd, fs);
    Join3(hd);
    calc {
      Frame(hd + fs);
      "[\"" + (Join(hd + fs) + "\"") + "]";
      "[\"" + (Join(hd) + "\"" + Body(fs)) + "]";
    }
  }

  /** buildCCSDisableCommand: the schedule written with period 0. */
  method BuildCCSDisableCommand(schedule: CronoSchedule) returns (r: string)
    ensures r == Frame(CCSFields(schedule, Some(Num(0))))
    ensures r == Frame(CCSFields(schedule.(periodo := Num(0)), None))
  {
    r := BuildCCSFromSchedule(schedule, Some(Num(0)));
  }

  /** buildCCSEnableCommand: the schedule written with its own period. */
  method BuildCCSEnableCommand(schedule: CronoSchedule) returns (r: string)
    ensures r == Frame(CCSFields(schedule, None))
  {
    r := BuildCCSFromSchedule(schedule, None);
  }

  // ---------------------------------------------------------------- reading back what was written

  /** A slot the frame can carry and the reader gives back: times of at most five plain characters. */
  predicate SlotWritable(slot: CronoSlot) {
    |slot.start| <= 5 && |slot.end| <= 5 && Plain(slot.start) && Plain(slot.end)
  }

  /** A schedule of the shape the device sends: seven days of three writable slots each. */
  predicate Writable(schedule: CronoSchedule) {
    |schedule.days| == Days
    && (forall d :: 0 <= d < Days ==> |schedule.days[d].slots| == SlotsPerDay)
    && (forall d, s :: 0 <= d < Days && 0 <= s < SlotsPerDay ==> SlotWritable(schedule.days[d].slots[s]))
  }

  /** The fields of slot `s` sit at positions `3s`, `3s + 1` and `3s + 2`. */
  lemma {:induction false} SlotFieldsAt(slots: seq<CronoSlot>, s: nat)
    requires s < |slots|
    ensures SlotFields(slots)[3 * s] == slots[s].start
    ensures SlotFields(slots)[3 * s + 1] == slots[s].end
    ensures SlotFields(slots)[3 * s + 2] == EnabledText(slots[s].enabled)
    decreases |slots|
  {
    var init := slots[..|slots| - 1];
    if s < |slots| - 1 {
      SlotFieldsAt(init, s);
    }
  }

  /** Every field a slot is written as is plain. */
  lemma {:induction false} SlotFieldsPlain(slots: seq<CronoSlot>)
    requires forall s :: 0 <= s < |slots| ==> Plain(slots[s].start) && Plain(slots[s].end)
    ensures forall i :: 0 <= i < |SlotFields(slots)| ==> Plain(SlotFields(slots)[i])
    decreases |slots|
  {
    if |slots| > 0 {
      var last := slots[|slots| - 1];
      SlotFieldsPlain(slots[..|slots| - 1]);
      QuoteFreePlain(EnabledText(last.enabled));
    }
  }

  /** Each day of three slots is written as ten fields. */
  lemma {:induction false} DayFieldsLength(days: seq<CronoDay>)
    requires forall d :: 0 <= d < |days| ==> |days[d].slots| == SlotsPerDay
    ensures |DayFields(days)| == 10 * |days|
    decreases |days|
  {
    if |days| > 0 {
      DayFieldsLength(days[..|days| - 1]);
    }
  }

  /** Day `d` is written at `10d`: its number, then slot `s` from `10d + 1 + 3s`. */
  lemma {:induction false} DayFieldsAt(days: seq<CronoDay>, d: nat, s: nat)
    requires forall e :: 0 <= e < |days| ==> |days[e].slots| == SlotsPerDay
    requires d < |days| && s < SlotsPerDay
    ensures |DayFields(days)| == 10 * |days|
    ensures DayFields(days)[10 * d] == NumberText(days[d].dayNumber)
    ensures DayFields(days)[10 * d + 1 + 3 * s] == days[d].slots[s].start
    ensures DayFields(days)[10 * d + 2 + 3 * s] == days[d].slots[s].end
    ensures DayFields(days)[10 * d + 3 + 3 * s] == EnabledText(days[d].slots[s].enabled)
    decreases |days|
  {
    DayFieldsLength(days);
    var init := days[..|days| - 1];
    DayFieldsLength(init);
    if d < |days| - 1 {
      DayFieldsAt(init, d, s);
    } else {
      SlotFieldsAt(days[d].slots, s);
    }
  }

  /** Every field the days are written as is plain when the slot times are. */
  lemma {:induction false} DayFieldsPlain(days: seq<CronoDay>)
    requires forall d, s :: 0 <= d < |days| && 0 <= s < |days[d].slots| ==>
      Plain(days[d].slots[s].start) && Plain(days[d].slots[s].end)
    ensures forall i :: 0 <= i < |DayFields(days)| ==> Plain(DayFields(days)[i])
    decreases |days|
  {
    if |days| > 0 {
      var last := days[|days| - 1];
      DayFieldsPlain(days[..|days| - 1]);
      NumberTextPlain(last.dayNumber);
      SlotFieldsPlain(last.slots);
    }
  }

  /** The CCS frame of a writable schedule splits back into exactly its 73 fields. */
  lemma CCSFrameFields(schedule: CronoSchedule, newPeriodo: Option<Number>)
    requires Writable(schedule)
    ensures var fs := CCSFields(schedule, newPeriodo);
      |fs| == MinParts && Fields(Frame(fs), "CCS") == Some(fs)
  {
    var fs := CCSFields(schedule, newPeriodo);
    DayFieldsLength(schedule.days);
    DayFieldsPlain(schedule.days);
    QuoteFreePlain("CCS");
    NumberTextPlain(Num(1 + 10 * |schedule.days|));
    NumberTextPlain(PeriodoOf(schedule, newPeriodo));
    forall i | 0 <= i < |fs|
      ensures Plain(fs[i])
    {
      if i >= 3 {
        assert fs[i] == DayFields(schedule.days)[i - 3];
      }
    }
    assert Frame(fs) == "" + Frame(fs) + "";
    FieldsOfFrame("", fs, "");
  }

  /** The reader takes slot `s` of day `d` back from the fields written for it. */
  lemma SlotReadBack(schedule: CronoSchedule, newPeriodo: Option<Number>, d: nat, s: nat)
    requires Writable(schedule) && d < Days && s < SlotsPerDay
    requires |CCSFields(schedule, newPeriodo)| >= MinParts
    ensures SlotAt(CCSFields(schedule, newPeriodo), d, s) == schedule.days[d].slots[s]
  {
    var fs := CCSFields(schedule, newPeriodo);
    var slot := schedule.days[d].slots[s];
    DayFieldsAt(schedule.days, d, s);
    assert fs[SlotIndex(d, s)] == slot.start && fs[SlotIndex(d, s) + 1] == slot.end;
    assert fs[SlotIndex(d, s) + 2] == EnabledText(slot.enabled);
    assert SlotWritable(slot);
  }

  /** The reader takes day `d` back from the fields written for it. */
  lemma DayReadBack(schedule: CronoSchedule, newPeriodo: Option<Number>, d: nat)
    requires Writable(schedule) && d < Days
    requires |CCSFields(schedule, newPeriodo)| >= MinParts
    ensures DayAt(CCSFields(schedule, newPeriodo), d) == schedule.days[d]
  {
    var fs := CCSFields(schedule, newPeriodo);
    var day := schedule.days[d];
    DayFieldsAt(schedule.days, d, 0);
    assert fs[DayIndex(d)] == NumberText(day.dayNumber);
    ParseNumberText(day.dayNumber);
    forall s | 0 <= s < SlotsPerDay
      ensures SlotsOf(fs, d)[s] == day.slots[s]
    {
      SlotReadBack(schedule, newPeriodo, d, s);
    }
  }

  /**
   * Round trip: a writable schedule written as a CCS frame and read back with the reply
   * layout gives the same seven days, and the period that was written.
   */
  lemma CCSRoundTrip(schedule: CronoSchedule, newPeriodo: Option<Number>)
    requires Writable(schedule)
    ensures var frame := Frame(CCSFields(schedule, newPeriodo));
      Fields(frame, "CCS").Some? && |Fields(frame, "CCS").value| == MinParts
      && ScheduleOf(Fields(frame, "CCS").value, frame).days == schedule.days
      && ScheduleOf(Fields(frame, "CCS").value, frame).periodo == PeriodoOf(schedule, newPeriodo)
      && Fields(frame, "CCS").value[1] == NumberText(Num(71))
  {
    var fs := CCSFields(schedule, newPeriodo);
    CCSFrameFields(schedule, newPeriodo);
    ParseNumberText(PeriodoOf(schedule, newPeriodo));
    DaysReadBack(schedule, newPeriodo);
  }

  /** Every day of the written fields reads back as the day written. */
  lemma DaysReadBack(schedule: CronoSchedule, newPeriodo: Option<Number>)
    requires Writable(schedule)
    requires |CCSFields(schedule, newPeriodo)| >= MinParts
    ensures DaysOf(CCSFields(schedule, newPeriodo)) == schedule.days
  {
    var fs := CCSFields(schedule, newPeriodo);
    forall d | 0 <= d < Days
      ensures DaysOf(fs)[d] == schedule.days[d]
    {
      DayReadBack(schedule, newPeriodo, d);
    }
  }
}
