// A star with a step, as in "*/10", against the range it stands for, as in "1-31/10".  The documentation
// calls the two equivalent, but a star also leaves its mark, which changes the rule for the day.

module StarSteps {
  import opened Calendar
  import opened Words
  import opened Text
  import opened SpecSchedules
  import opened HorizonLimits
  import opened Parser
  import opened ParserLaws

  ghost predicate SameSeconds(a: SpecSchedule, b: SpecSchedule) {
    forall t: Clock :: Matches(a, t) <==> Matches(b, t)
  }

  function RangeStep(r: Bounds, step: nat): Word { Steps(r.min, r.max, step) }

  function StarStep(r: Bounds, step: nat): Word { Or(RangeStep(r, step), STAR_BIT) }

  /** Both stand for every `step`-th value of the field, but only one has the star. */
  lemma StepValues(r: Bounds, step: nat, v: nat)
    requires step >= 1 && r.min <= v <= r.max < 63
    ensures Test(RangeStep(r, step), v) <==> (v - r.min) % step == 0
    ensures Test(StarStep(r, step), v) <==> (v - r.min) % step == 0
    ensures !HasStar(RangeStep(r, step)) && HasStar(StarStep(r, step))
  {
    hide Test, HasStar;
    TestIsMember(RangeStep(r, step), v);
    TestIsMember(StarStep(r, step), v);
    HasStarIsMember(RangeStep(r, step));
    HasStarIsMember(StarStep(r, step));
    assert v in MAX_UINT64;
  }

  // ---------- weekdays of the first two years ----------

  lemma {:induction false} SameMonthLengths(m: nat)
    requires 1 <= m <= 12
    ensures DaysBeforeMonth(1, m) == DaysBeforeMonth(2, m)
  {
    if m > 1 {
      SameMonthLengths(m - 1);
    }
  }

  /** Neither is a leap year, so a date moves on by one weekday. */
  lemma SameDateNextYear(m: nat, d: nat)
    requires 1 <= m <= 12 && d >= 1
    ensures WeekdayOf(DayNumber(2, m, d)) == WeekdayOf(DayNumber(1, m, d) + 1)
    ensures DayNumber(1, m, d) + 1 == DayNumber(1, m, d + 1)
  {
    hide DaysBeforeMonth;
    SameMonthLengths(m);
    assert DaysBeforeYear(1) == 0 && DaysBeforeYear(2) == 365;
    YearLater(DayNumber(1, m, d));
  }

  lemma YearLater(n: nat)
    ensures WeekdayOf(n + 365) == WeekdayOf(n + 1)
  {}

  /** Some day of the first week of the month falls on the weekday. */
  lemma DayInFirstWeek(m: nat, w: nat) returns (d: nat)
    requires 1 <= m <= 12 && w < 7
    ensures 1 <= d <= 7 && WeekdayOf(DayNumber(1, m, d)) == w
  {
    var k := WeekdayInFirstWeek(DayNumber(1, m, 1), w);
    d := k + 1;
    assert DayNumber(1, m, 1) + k == DayNumber(1, m, d);
  }

  // ---------- the day of month ----------

  /** Without a star among the weekdays, the marked mask asks for both days, the other for either. */
  lemma DayRules(s: SpecSchedule, step: nat, t: Clock)
    requires step >= 1 && !HasStar(s.dow)
    ensures var d, w := (Day(t) - 1) % step == 0, Test(s.dow, Weekday(t));
      && (DayMatches(s.(dom := StarStep(DOM, step)), t) <==> d && w)
      && (DayMatches(s.(dom := RangeStep(DOM, step)), t) <==> d || w)
  {
    hide Test, HasStar, Day, Weekday, RangeStep, StarStep;
    StepValues(DOM, step, Day(t));
  }

  /** If the two masks never differ, the days of the month and the weekdays allow the same days. */
  lemma SameDays(s: SpecSchedule, step: nat, y: nat, m: Position, d: nat)
    requires Inhabited(s) && step >= 1 && !HasStar(s.dow)
    requires SameSeconds(s.(dom := StarStep(DOM, step)), s.(dom := RangeStep(DOM, step)))
    requires y >= 1 && 1 <= m <= 12 && m in s.month && 1 <= d <= DaysIn(y, m)
    ensures (d - 1) % step == 0 <==> Test(s.dow, WeekdayOf(DayNumber(y, m, d)))
  {
    hide Test, HasStar, Day, Year, DayMatches, RangeStep, StarStep, DayNumber, DaysIn, WeekdayOf, SomeIn;
    var c := SecondOnDay(s, y, m, d);
    var a, b := s.(dom := StarStep(DOM, step)), s.(dom := RangeStep(DOM, step));
    DayRules(s, step, c);
    assert Matches(a, c) <==> Matches(b, c);
    assert Matches(a, c) <==> DayMatches(a, c);
    assert Matches(b, c) <==> DayMatches(b, c);
  }

  /**
   In the day-of-month field the star makes no difference exactly if the weekday field has one too, or
   if there is nothing to restrict: every day of the month and every weekday is allowed.
   */
  lemma StarStepMatters(s: SpecSchedule, step: nat)
    requires Inhabited(s) && step >= 1
    ensures SameSeconds(s.(dom := StarStep(DOM, step)), s.(dom := RangeStep(DOM, step)))
       <==> HasStar(s.dow) || (step == 1 && AllIn(s.dow, 0, 6))
  {
    hide RangeStep, StarStep, HasStar, Test, Day, Weekday, SomeIn;
    var a, b := s.(dom := StarStep(DOM, step)), s.(dom := RangeStep(DOM, step));
    if HasStar(s.dow) || (step == 1 && AllIn(s.dow, 0, 6)) {
      forall t: Clock ensures Matches(a, t) <==> Matches(b, t) {
        StepValues(DOM, step, Day(t));
        TestIsMember(s.dow, Weekday(t));
      }
    } else if SameSeconds(a, b) {
      OnlyIfAllWeekdays(s, step);
    }
  }

  lemma OnlyIfAllWeekdays(s: SpecSchedule, step: nat)
    requires Inhabited(s) && step >= 1 && !HasStar(s.dow)
    requires SameSeconds(s.(dom := StarStep(DOM, step)), s.(dom := RangeStep(DOM, step)))
    ensures step == 1 && AllIn(s.dow, 0, 6)
  {
    hide SameSeconds, RangeStep, StarStep, HasStar, Test, DayNumber, WeekdayOf;
    var m: Position :| 1 <= m <= 12 && m in s.month;
    if step >= 2 {
      SameDays(s, step, 2, m, 1);
      SameDays(s, step, 1, m, 2);
      SameDateNextYear(m, 1);
    } else {
      forall w: Position | w <= 6 ensures w in s.dow {
        var d := DayInFirstWeek(m, w);
        SameDays(s, step, 1, m, d);
        TestIsMember(s.dow, w);
      }
    }
  }

  // ---------- the weekday ----------

  lemma WeekdayRules(s: SpecSchedule, step: nat, t: Clock)
    requires step >= 1 && !HasStar(s.dom)
    ensures var d, w := Test(s.dom, Day(t)), Weekday(t) % step == 0;
      && (DayMatches(s.(dow := StarStep(DOW, step)), t) <==> d && w)
      && (DayMatches(s.(dow := RangeStep(DOW, step)), t) <==> d || w)
  {
    hide Test, HasStar, Day, Weekday, RangeStep, StarStep;
    StepValues(DOW, step, Weekday(t));
  }

  lemma SameWeekdays(s: SpecSchedule, step: nat, y: nat, m: Position, d: nat)
    requires Inhabited(s) && step >= 1 && !HasStar(s.dom)
    requires SameSeconds(s.(dow := StarStep(DOW, step)), s.(dow := RangeStep(DOW, step)))
    requires y >= 1 && 1 <= m <= 12 && m in s.month && 1 <= d <= DaysIn(y, m)
    ensures WeekdayOf(DayNumber(y, m, d)) % step == 0 <==> Test(s.dom, d)
  {
    hide Test, HasStar, Day, Year, DayMatches, RangeStep, StarStep, DayNumber, DaysIn, WeekdayOf, SomeIn;
    var c := SecondOnDay(s, y, m, d);
    var a, b := s.(dow := StarStep(DOW, step)), s.(dow := RangeStep(DOW, step));
    WeekdayRules(s, step, c);
    assert Matches(a, c) <==> Matches(b, c);
    assert Matches(a, c) <==> DayMatches(a, c);
    assert Matches(b, c) <==> DayMatches(b, c);
  }

  /** Every date that the months allow, in a leap year like year 4, is an allowed day of the month. */
  predicate AllDates(s: SpecSchedule) {
    forall m: Position, d: nat :: 1 <= m <= 12 && m in s.month && 1 <= d <= DaysIn(4, m) ==> Test(s.dom, d)
  }

  /** In the weekday field it makes none exactly if the other field has one, or nothing is restricted. */
  lemma WeekdayStarMatters(s: SpecSchedule, step: nat)
    requires Inhabited(s) && step >= 1
    ensures SameSeconds(s.(dow := StarStep(DOW, step)), s.(dow := RangeStep(DOW, step)))
       <==> HasStar(s.dom) || (step == 1 && AllDates(s))
  {
    hide RangeStep, StarStep, HasStar, Test, Day, Weekday, Month, SomeIn, DaysIn;
    var a, b := s.(dow := StarStep(DOW, step)), s.(dow := RangeStep(DOW, step));
    if HasStar(s.dom) || (step == 1 && AllDates(s)) {
      forall t: Clock ensures Matches(a, t) <==> Matches(b, t) {
        StepValues(DOW, step, Weekday(t));
        TestIsMember(s.month, Month(t));
        DayInLeapYear(t);
      }
    } else if SameSeconds(a, b) {
      OnlyIfAllDates(s, step);
    }
  }

  lemma DayInLeapYear(t: Clock)
    ensures 1 <= Day(t) <= DaysIn(4, Month(t))
  {
    hide Year, Month, Day, Hour, Minute, Second;
    assert FieldsOf(t).Valid();
    assert IsLeap(4);
  }

  lemma OnlyIfAllDates(s: SpecSchedule, step: nat)
    requires Inhabited(s) && step >= 1 && !HasStar(s.dom)
    requires SameSeconds(s.(dow := StarStep(DOW, step)), s.(dow := RangeStep(DOW, step)))
    ensures step == 1 && AllDates(s)
  {
    hide SameSeconds, RangeStep, StarStep, HasStar, Test, DayNumber, DaysIn;
    if step >= 2 {
      var m: Position :| 1 <= m <= 12 && m in s.month;
      var d := DayInFirstWeek(m, 0);
      SameWeekdays(s, step, 1, m, d);
      SameDateNextYear(m, d);
      SameWeekdays(s, step, 2, m, d);
    } else {
      forall m: Position, d: nat | 1 <= m <= 12 && m in s.month && 1 <= d <= DaysIn(4, m) ensures Test(s.dom, d) {
        SameWeekdays(s, step, 4, m, d);
      }
    }
  }

  // ---------- the other fields ----------

  /** Seconds, minutes, hours and months are only asked for single values, so there a star never matters. */
  lemma StarElsewhere(s: SpecSchedule, mask: Word)
    ensures SameSeconds(s.(second := Or(mask, STAR_BIT)), s.(second := mask))
    ensures SameSeconds(s.(minute := Or(mask, STAR_BIT)), s.(minute := mask))
    ensures SameSeconds(s.(hour := Or(mask, STAR_BIT)), s.(hour := mask))
    ensures SameSeconds(s.(month := Or(mask, STAR_BIT)), s.(month := mask))
  {
    hide Test, HasStar, Second, Minute, Hour, Day, Month, Weekday;
    forall i: nat ensures i < 63 ==> Test(Or(mask, STAR_BIT), i) == Test(mask, i) {
      TestIsMember(mask, i);
      TestIsMember(Or(mask, STAR_BIT), i);
    }
  }

  // ---------- as written ----------

  function StarForm(step: nat): string { "*/" + Numeral(step) }

  function RangeForm(r: Bounds, step: nat): string { Numeral(r.min) + "-" + Numeral(r.max) + "/" + Numeral(step) }

  lemma OneItem(expr: string, r: Bounds)
    requires expr != "" && ',' !in expr && RangeMask(expr, r).Value?
    ensures FieldMask(expr, r) == RangeMask(expr, r) && Items(expr) == [expr]
  {
    hide RangeMask;
    SplitWhole(expr, {','});
    assert NonEmpty([expr]) == [expr] + NonEmpty([]);
    assert ItemsMask([expr], r) == Union(ItemsMask([], r), RangeMask(expr, r));
    assert Or(ZERO, RangeMask(expr, r).value) == RangeMask(expr, r).value;
  }

  lemma StarFormMask(r: Bounds, step: nat)
    requires r in FIELD_BOUNDS && 1 <= step <= MAX_INT
    ensures FieldMask(StarForm(step), r) == Value(StarStep(r, step)) && Items(StarForm(step)) != []
  {
    hide RangeMask, FieldMask, Items, Steps, Numeral;
    StarStepText(step, r);
    AtoiNumeral(step);
    OneItem(StarForm(step), r);
  }

  lemma RangeFormMask(r: Bounds, step: nat)
    requires r in FIELD_BOUNDS && 1 <= step <= MAX_INT
    ensures FieldMask(RangeForm(r, step), r) == Value(RangeStep(r, step)) && Items(RangeForm(r, step)) != []
  {
    hide RangeMask, FieldMask, Items, Steps, Numeral, Atoi, AllDigits, Digits;
    RangeText(r.min, r.max, step, r);
    AtoiNumeral(r.min);
    AtoiNumeral(r.max);
    AtoiNumeral(step);
    OneItem(RangeForm(r, step), r);
  }

  /** Field `k` of a schedule, with another mask. */
  function With(s: SpecSchedule, k: nat, mask: Word): SpecSchedule {
    if k == 0 then s.(second := mask)
    else if k == 1 then s.(minute := mask)
    else if k == 2 then s.(hour := mask)
    else if k == 3 then s.(dom := mask)
    else if k == 4 then s.(month := mask)
    else s.(dow := mask)
  }

  /** Replacing the text of a field replaces its mask. */
  lemma WithField(fields: seq<string>, k: nat, field: string)
    requires |fields| == 6 && k < 6 && FieldMasks(fields, 6).Value? && FieldMask(field, FIELD_BOUNDS[k]).Value?
    ensures var masks := FieldMasks(fields[k := field], 6);
      && masks.Value?
      && ScheduleOf(masks.value)
         == With(ScheduleOf(FieldMasks(fields, 6).value), k, FieldMask(field, FIELD_BOUNDS[k]).value)
  {
    hide FieldMask, FieldMasks;
    FieldMasksOutcome(fields, 6);
    FieldMasksOutcome(fields[k := field], 6);
    var masks := FieldMasks(fields[k := field], 6).value;
    forall i | 0 <= i < 6
      ensures masks[i] == if i == k then FieldMask(field, FIELD_BOUNDS[k]).value else FieldMasks(fields, 6).value[i]
    {}
  }

  /** When it does not matter how field `k` is written: always, but for the two fields of the day. */
  ghost predicate FormIrrelevant(fields: seq<string>, k: nat, step: nat)
    requires |fields| == 6
  {
    && (k == 3 ==> Starred(fields[5], DOW) || (step == 1 && forall w :: 0 <= w <= 6 ==> Allows(fields[5], DOW, w)))
    && (k == 5 ==>
          || Starred(fields[3], DOM)
          || (step == 1 && forall m, d: nat ::
                1 <= m <= 12 && Allows(fields[4], MONTHS, m) && 1 <= d <= DaysIn(4, m) ==> Allows(fields[3], DOM, d)))
  }

  /** Two specs that differ only in how they write one of their fields match the same seconds, or do not. */
  lemma StarFormMatters(fields: seq<string>, k: nat, step: nat)
    requires |fields| == 6 && k < 6 && 1 <= step <= MAX_INT && FieldMasks(fields, 6).Value?
    requires forall i :: 0 <= i < 6 ==> Items(fields[i]) != []
    ensures var starred := FieldMasks(fields[k := StarForm(step)], 6);
            var plain := FieldMasks(fields[k := RangeForm(FIELD_BOUNDS[k], step)], 6);
      && starred.Value? && plain.Value?
      && (SameSeconds(ScheduleOf(starred.value), ScheduleOf(plain.value)) <==> FormIrrelevant(fields, k, step))
  {
    hide FieldMask, FieldMasks, Items, RangeStep, StarStep, StarForm, RangeForm, SameSeconds, FormIrrelevant, With;
    var r := FIELD_BOUNDS[k];
    StarFormMask(r, step);
    RangeFormMask(r, step);
    WithField(fields, k, StarForm(step));
    WithField(fields, k, RangeForm(r, step));
    MaskMatters(fields, k, step);
  }

  /** The same about the masks. */
  lemma MaskMatters(fields: seq<string>, k: nat, step: nat)
    requires |fields| == 6 && k < 6 && step >= 1 && FieldMasks(fields, 6).Value?
    requires forall i :: 0 <= i < 6 ==> Items(fields[i]) != []
    ensures var s, r := ScheduleOf(FieldMasks(fields, 6).value), FIELD_BOUNDS[k];
            SameSeconds(With(s, k, StarStep(r, step)), With(s, k, RangeStep(r, step)))
            <==> FormIrrelevant(fields, k, step)
  {
    hide FieldMasks, Items, RangeStep, SameSeconds, Inhabited, Allows, Starred, HasStar, AllIn, AllDates;
    var s := ScheduleOf(FieldMasks(fields, 6).value);
    ParsedIsInhabited(fields);
    if k == 3 {
      StarStepMatters(s, step);
      WeekdaysAsWritten(fields);
    } else if k == 5 {
      WeekdayStarMatters(s, step);
      DatesAsWritten(fields);
    } else {
      StarElsewhere(s, RangeStep(FIELD_BOUNDS[k], step));
    }
  }

  lemma WeekdaysAsWritten(fields: seq<string>)
    requires |fields| == 6 && FieldMasks(fields, 6).Value?
    ensures var s := ScheduleOf(FieldMasks(fields, 6).value);
      && (HasStar(s.dow) <==> Starred(fields[5], DOW))
      && (AllIn(s.dow, 0, 6) <==> forall w :: 0 <= w <= 6 ==> Allows(fields[5], DOW, w))
  {
    hide FieldMask, Allows, Starred, HasStar, Test;
    var s := ScheduleOf(FieldMasks(fields, 6).value);
    FieldMasksOutcome(fields, 6);
    assert FIELD_BOUNDS[5] == DOW;
    FieldMeaning(fields[5], DOW, 0);
    forall w: Position | w <= 6 ensures w in s.dow <==> Allows(fields[5], DOW, w) {
      FieldMeaning(fields[5], DOW, w);
      TestIsMember(s.dow, w);
    }
  }

  lemma DatesAsWritten(fields: seq<string>)
    requires |fields| == 6 && FieldMasks(fields, 6).Value?
    ensures var s := ScheduleOf(FieldMasks(fields, 6).value);
      && (HasStar(s.dom) <==> Starred(fields[3], DOM))
      && (AllDates(s) <==>
            forall m, d: nat ::
              1 <= m <= 12 && Allows(fields[4], MONTHS, m) && 1 <= d <= DaysIn(4, m) ==> Allows(fields[3], DOM, d))
  {
    hide FieldMask, Allows, Starred, HasStar, Test, DaysIn;
    var s := ScheduleOf(FieldMasks(fields, 6).value);
    FieldMasksOutcome(fields, 6);
    assert FIELD_BOUNDS[3] == DOM && FIELD_BOUNDS[4] == MONTHS;
    FieldMeaning(fields[3], DOM, 0);
    forall m: Position | m <= 12 ensures m in s.month <==> Allows(fields[4], MONTHS, m) {
      FieldMeaning(fields[4], MONTHS, m);
      TestIsMember(s.month, m);
    }
    forall d: nat | d <= 31 ensures Test(s.dom, d) <==> Allows(fields[3], DOM, d) {
      FieldMeaning(fields[3], DOM, d);
    }
  }
}
