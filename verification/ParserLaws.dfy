/** What the parser's masks mean, and when it does not return. */
module ParserLaws {
  import opened Basics
  import opened Calendar
  import opened Words
  import opened Text
  import opened SpecSchedules
  import opened Schedules
  import opened Parser
  import opened HorizonLimits

  // ---------- one range ----------

  /** The mask of a range, with the endless loop told by its step. */
  lemma RangeMaskIs(expr: string, r: Bounds)
    ensures RangeMask(expr, r) ==
            match ReadRange(expr, r)
            case Panic => Panic
            case Value(x) =>
              if x.step == 0 then Hang
              else Value(Or(Steps(x.start, x.end, x.step), if x.star then STAR_BIT else ZERO))
  {
    hide ReadRange, NeverEnds;
    if ReadRange(expr, r).Value? {
      var x := ReadRange(expr, r).value;
      LoopEndsUnlessZero(x.start, x.end, x.step);
    }
  }

  /** An accepted range sets exactly the bits it names, inside the field's bounds, and the star bit. */
  lemma RangeMaskMeaning(expr: string, r: Bounds, i: Position)
    requires RangeMask(expr, r).Value? && r.max < 63
    ensures ReadRange(expr, r).Value?
    ensures var x, m := ReadRange(expr, r).value, RangeMask(expr, r).value;
      && r.min <= x.start <= x.end <= r.max && x.step >= 1
      && (i < 63 ==> (i in m <==> x.start <= i <= x.end && (i - x.start) % x.step == 0))
      && (i == 63 ==> (i in m <==> x.star))
      && x.start in m
  {
    hide RangeMask, ReadRange;
    RangeMaskIs(expr, r);
    var x := ReadRange(expr, r).value;
    assert OnStep(x.start, x.start, x.end, x.step) by {
      Division(x.start - x.start, x.step, 0, 0);
    }
    assert x.start in MAX_UINT64;
  }

  // ---------- a list of ranges ----------

  lemma {:induction false} ItemsMaskAppend(a: seq<string>, b: seq<string>, r: Bounds)
    ensures ItemsMask(a + b, r) == Union(ItemsMask(a, r), ItemsMask(b, r))
    decreases |b|
  {
    hide RangeMask;
    if b == [] {
      assert a + b == a;
      var m := ItemsMask(a, r);
      if m.Value? {
        assert Or(m.value, ZERO) == m.value;
      }
    } else {
      var front, last := b[..|b| - 1], b[|b| - 1];
      assert (a + b)[..|a + b| - 1] == a + front;
      ItemsMaskAppend(a, front, r);
      UnionAssociates(ItemsMask(a, r), ItemsMask(front, r), RangeMask(last, r));
    }
  }

  lemma UnionAssociates(a: Outcome<Word>, b: Outcome<Word>, c: Outcome<Word>)
    ensures Union(Union(a, b), c) == Union(a, Union(b, c))
  {
    if a.Value? && b.Value? && c.Value? {
      assert Or(Or(a.value, b.value), c.value) == Or(a.value, Or(b.value, c.value));
    }
  }

  /** A comma stands for union; an item that fails makes the field fail in the same way. */
  lemma CommaIsUnion(a: string, b: string, r: Bounds)
    ensures FieldMask(a + "," + b, r) == Union(FieldMask(a, r), FieldMask(b, r))
  {
    hide RangeMask;
    FieldsFuncAppend(a, ',', b, {','});
    assert a + "," + b == a + [','] + b;
    ItemsMaskAppend(Items(a), Items(b), r);
  }

  /** An accepted list is the union of its items. */
  lemma {:induction false} ItemsMaskIsUnion(items: seq<string>, r: Bounds, i: Position)
    ensures ItemsMask(items, r).Value? <==> forall x <- items :: RangeMask(x, r).Value?
    ensures ItemsMask(items, r).Value? ==>
              (i in ItemsMask(items, r).value <==> exists x <- items :: i in RangeMask(x, r).value)
  {
    hide RangeMask;
    if items != [] {
      var front, last := items[..|items| - 1], items[|items| - 1];
      ItemsMaskIsUnion(front, r, i);
      assert items == front + [last];
      assert forall x :: x in items <==> x in front || x == last;
    }
  }

  /** Neither the order nor the repetition of list items matters to an accepted field. */
  lemma ItemOrderIrrelevant(a: string, b: string, r: Bounds)
    requires FieldMask(a, r).Value? && forall x :: x in Items(a) <==> x in Items(b)
    ensures FieldMask(b, r) == FieldMask(a, r)
  {
    hide RangeMask, ItemsMask, Items;
    ItemsMaskIsUnion(Items(a), r, 0);
    ItemsMaskIsUnion(Items(b), r, 0);
    forall i: Position ensures i in FieldMask(a, r).value <==> i in FieldMask(b, r).value {
      ItemsMaskIsUnion(Items(a), r, i);
      ItemsMaskIsUnion(Items(b), r, i);
    }
    assert FieldMask(a, r).value == FieldMask(b, r).value;
  }

  /** All bits of an accepted field but the star are within its bounds, and a field with an item has one. */
  lemma FieldInBounds(field: string, r: Bounds, i: Position)
    requires FieldMask(field, r).Value? && r.max < 63
    ensures i in FieldMask(field, r).value ==> i == 63 || r.min <= i <= r.max
    ensures Items(field) != [] ==> SomeIn(FieldMask(field, r).value, r.min, r.max)
  {
    hide RangeMask, ItemsMask, Items, ReadRange;
    var items := Items(field);
    ItemsMaskIsUnion(items, r, i);
    forall x <- items ensures i in RangeMask(x, r).value ==> i == 63 || r.min <= i <= r.max {
      RangeMaskMeaning(x, r, i);
    }
    if items != [] {
      RangeMaskMeaning(items[0], r, i);
      var k := ReadRange(items[0], r).value.start;
      ItemsMaskIsUnion(items, r, k);
    }
  }

  // ---------- what a spec stands for ----------

  /** Some range of the field, as written, includes `v`. */
  ghost predicate Allows(field: string, r: Bounds, v: nat) { exists x <- Items(field) :: Includes(x, r, v) }

  predicate Includes(expr: string, r: Bounds, v: nat) {
    match ReadRange(expr, r)
    case Value(x) => x.step >= 1 && x.start <= v <= x.end && (v - x.start) % x.step == 0
    case _ => false
  }

  /** Some range of the field starts with a star or a question mark. */
  ghost predicate Starred(field: string, r: Bounds) { exists x <- Items(field) :: WrittenWithStar(x, r) }

  predicate WrittenWithStar(expr: string, r: Bounds) { ReadRange(expr, r).Value? && ReadRange(expr, r).value.star }

  lemma FieldMeaning(field: string, r: Bounds, v: nat)
    requires FieldMask(field, r).Value? && r.max < 63 && v < 63
    ensures Test(FieldMask(field, r).value, v) <==> Allows(field, r, v)
    ensures HasStar(FieldMask(field, r).value) <==> Starred(field, r)
  {
    hide RangeMask, ItemsMask, Items, ReadRange, Test, HasStar;
    var m := FieldMask(field, r).value;
    TestIsMember(m, v);
    HasStarIsMember(m);
    ItemsMaskIsUnion(Items(field), r, v);
    ItemsMaskIsUnion(Items(field), r, 63);
    forall x <- Items(field)
      ensures v in RangeMask(x, r).value <==> Includes(x, r, v)
      ensures 63 in RangeMask(x, r).value <==> WrittenWithStar(x, r)
    {
      RangeMaskMeaning(x, r, v);
      RangeMaskMeaning(x, r, 63);
    }
  }

  /**
   The fields, as written, allow the second, minute, hour and month, and the day by the crontab
   rule: if neither day field has a star, one of them must allow the day, otherwise both must.
   */
  ghost predicate SpecAllows(fields: seq<string>, t: Clock)
    requires |fields| == 6
  {
    && Allows(fields[0], SECONDS, Second(t)) && Allows(fields[1], MINUTES, Minute(t))
    && Allows(fields[2], HOURS, Hour(t)) && Allows(fields[4], MONTHS, Month(t))
    && if Starred(fields[3], DOM) || Starred(fields[5], DOW)
       then Allows(fields[3], DOM, Day(t)) && Allows(fields[5], DOW, Weekday(t))
       else Allows(fields[3], DOM, Day(t)) || Allows(fields[5], DOW, Weekday(t))
  }

  /** From text to instants: an accepted spec fires at exactly the seconds its fields allow. */
  lemma SpecMeaning(fields: seq<string>, t: Clock)
    requires |fields| == 6 && FieldMasks(fields, 6).Value?
    ensures Matches(ScheduleOf(FieldMasks(fields, 6).value), t) <==> SpecAllows(fields, t)
  {
    hide FieldMask, Test, HasStar, Allows, Starred, Year, Month, Day, Hour, Minute, Second, Weekday;
    FieldMasksOutcome(fields, 6);
    assert FIELD_BOUNDS[0] == SECONDS && FIELD_BOUNDS[1] == MINUTES && FIELD_BOUNDS[2] == HOURS;
    assert FIELD_BOUNDS[3] == DOM && FIELD_BOUNDS[4] == MONTHS && FIELD_BOUNDS[5] == DOW;
    FieldMeaning(fields[0], SECONDS, Second(t));
    FieldMeaning(fields[1], MINUTES, Minute(t));
    FieldMeaning(fields[2], HOURS, Hour(t));
    FieldMeaning(fields[3], DOM, Day(t));
    FieldMeaning(fields[4], MONTHS, Month(t));
    FieldMeaning(fields[5], DOW, Weekday(t));
  }

  // ---------- not returning ----------

  /** An item that passes every check of `getRange` but asks for every zeroth value. */
  predicate ZeroStep(expr: string, r: Bounds) {
    ReadRange(expr, r).Value? && ReadRange(expr, r).value.step == 0
  }

  /** Exactly on these items the loop of `getBits` runs on and on. */
  lemma ZeroStepHangs(expr: string, r: Bounds)
    ensures ZeroStep(expr, r) <==> forall turns: nat :: StillInRange(expr, r, turns)
    ensures RangeMask(expr, r) == Hang <==> ZeroStep(expr, r)
  {
    hide ReadRange, RangeMask, StillInRange;
    RangeHangsIff(expr, r);
    RangeMaskIs(expr, r);
  }

  /** The item has one slash, and what comes after it reads as zero. */
  predicate AsksForZero(expr: string) {
    var parts := Split(expr, {'/'});
    |parts| == 2 && Atoi(parts[1]) == Some(0)
  }

  lemma ZeroStepText(expr: string, r: Bounds)
    requires ZeroStep(expr, r)
    ensures AsksForZero(expr)
  {
    hide Ends, Atoi;
  }

  ghost predicate FieldStuckAt(field: string, r: Bounds, j: nat) {
    && j < |Items(field)| && ZeroStep(Items(field)[j], r)
    && forall k :: 0 <= k < j ==> RangeMask(Items(field)[k], r).Value?
  }

  lemma {:induction false} ItemsStuck(items: seq<string>, r: Bounds) returns (j: nat)
    requires ItemsMask(items, r) == Hang
    ensures j < |items| && RangeMask(items[j], r) == Hang
    ensures forall k :: 0 <= k < j ==> RangeMask(items[k], r).Value?
  {
    hide RangeMask;
    var front := items[..|items| - 1];
    if ItemsMask(front, r) == Hang {
      j := ItemsStuck(front, r);
      assert forall k :: 0 <= k < |front| ==> items[k] == front[k];
    } else {
      j := |items| - 1;
      ItemsMaskIsUnion(front, r, 0);
      forall k | 0 <= k < j ensures RangeMask(items[k], r).Value? {
        assert items[k] == front[k] && front[k] in front;
      }
    }
  }

  lemma FieldStuckIff(field: string, r: Bounds)
    ensures FieldMask(field, r) == Hang <==> exists j: nat :: FieldStuckAt(field, r, j)
  {
    hide ItemsMask, Items, ReadRange;
    var items := Items(field);
    if FieldMask(field, r) == Hang {
      var j := ItemsStuck(items, r);
      ZeroStepHangs(items[j], r);
      assert FieldStuckAt(field, r, j);
    }
    if j: nat :| FieldStuckAt(field, r, j) {
      ItemsMaskIsUnion(items[..j], r, 0);
      forall x <- items[..j] ensures RangeMask(x, r).Value? {
        var k :| 0 <= k < j && items[k] == x;
      }
      ZeroStepHangs(items[j], r);
      BadItem(items, j, r);
    }
  }

  ghost predicate SpecStuckAt(fields: seq<string>, n: nat)
    requires |fields| == 6
  {
    && n < 6 && (exists j: nat :: FieldStuckAt(fields[n], FIELD_BOUNDS[n], j))
    && forall k :: 0 <= k < n ==> FieldMask(fields[k], FIELD_BOUNDS[k]).Value?
  }

  lemma {:induction false} FieldMasksOutcome(fields: seq<string>, n: nat)
    requires |fields| == 6 && n <= 6
    ensures FieldMasks(fields, n).Value? <==> forall k :: 0 <= k < n ==> FieldMask(fields[k], FIELD_BOUNDS[k]).Value?
    ensures FieldMasks(fields, n).Value? ==>
              forall k :: 0 <= k < n ==> FieldMasks(fields, n).value[k] == FieldMask(fields[k], FIELD_BOUNDS[k]).value
    ensures FieldMasks(fields, n) == Hang <==> exists k: nat :: k < n && SpecStuckAt(fields, k)
  {
    hide FieldMask, FieldStuckAt;
    if n > 0 {
      FieldMasksOutcome(fields, n - 1);
      FieldStuckIff(fields[n - 1], FIELD_BOUNDS[n - 1]);
      if FieldMasks(fields, n) == Hang && FieldMasks(fields, n - 1).Value? {
        assert SpecStuckAt(fields, n - 1);
      }
    }
  }

  /** Some field holds a range with step 0, and everything before it is acceptable. */
  ghost predicate NeverParsed(spec: string) {
    && spec != "" && spec[0] != '@' && SplitSpec(spec).Some?
    && exists n: nat :: SpecStuckAt(SplitSpec(spec).value, n)
  }

  /** Where `Parse` meets its documentation, "a schedule or a descriptive error": everywhere but there. */
  lemma ParseReturnsUnless(spec: string, parseDuration: string -> Option<int>)
    ensures Parse(spec, parseDuration) == Hang <==> NeverParsed(spec)
  {
    hide FieldMasks, FieldStuckAt, FieldMask, SplitSpec, Every;
    if SplitSpec(spec).Some? {
      FieldMasksOutcome(SplitSpec(spec).value, 6);
    }
  }

  /** `Parse` returns from every spec in which no item of any field asks for a step of zero. */
  lemma ParseReturnsWithoutZero(spec: string, parseDuration: string -> Option<int>)
    requires forall f <- FieldsFunc(spec, SPACES), x <- Items(f) :: !AsksForZero(x)
    ensures Parse(spec, parseDuration) != Hang
  {
    hide Parse, Items, FieldsFunc, ZeroStep, AsksForZero;
    ParseReturnsUnless(spec, parseDuration);
    if Parse(spec, parseDuration) == Hang {
      var fields := SplitSpec(spec).value;
      var n: nat :| SpecStuckAt(fields, n);
      var j: nat :| FieldStuckAt(fields[n], FIELD_BOUNDS[n], j);
      ZeroStepText(Items(fields[n])[j], FIELD_BOUNDS[n]);
      StarAsksForNothing();
    }
  }

  lemma StarAsksForNothing()
    ensures forall x <- Items("*") :: !AsksForZero(x)
  {
    SplitWhole("*", {','});
    SplitWhole("*", {'/'});
    assert NonEmpty(["*"]) == ["*"] + NonEmpty([]);
  }

  /** Where a step of 1 is accepted, a step of 0 is not refused: the parser hangs. */
  lemma ZeroForOne(base: string, zero: string, r: Bounds)
    requires '/' !in base && '/' !in zero && Atoi(zero) == Some(0)
    ensures RangeMask(base + "/" + zero, r) == Hang <==> RangeMask(base + "/1", r).Value?
  {
    hide Ends, Atoi, NeverEnds;
    AtoiNumeral(1);
    assert Numeral(1) == "1";
    assert base + "/" + zero == base + ['/'] + zero && base + "/1" == base + ['/'] + "1";
    SplitAt(base, '/', zero);
    SplitAt(base, '/', "1");
    ZeroStepHangs(base + "/" + zero, r);
    ZeroStepHangs(base + "/1", r);
  }

  lemma StarZeroHangs(r: Bounds)
    requires r in FIELD_BOUNDS
    ensures RangeMask("*/0", r) == Hang
  {
    hide Atoi, RangeMask;
    assert Atoi("0") == Some(0) by {
      AtoiNumeral(0);
      assert Numeral(0) == "0";
    }
    StarStepText(1, r);
    assert Numeral(1) == "1" && "*/" + "1" == "*" + "/1";
    ZeroForOne("*", "0", r);
    assert "*" + "/" + "0" == "*/0";
  }

  lemma StarZeroIsStuck(r: Bounds)
    requires r in FIELD_BOUNDS
    ensures FieldStuckAt("*/0", r, 0)
  {
    hide RangeMask, ZeroStep;
    StarZeroHangs(r);
    ZeroStepHangs("*/0", r);
    SplitWhole("*/0", {','});
    assert NonEmpty(["*/0"]) == ["*/0"] + NonEmpty([]);
  }

  /** Six words with blanks between them are read as these six fields. */
  lemma SpecOfWords(fields: seq<string>)
    requires |fields| == 6 && (forall k :: 0 <= k < 6 ==> IsWord(fields[k])) && !("@" <= fields[0])
    ensures var spec := Joined(fields); spec != "" && spec[0] != '@' && SplitSpec(spec) == Some(fields)
  {
    hide FieldsFunc, Joined;
    FieldsOfJoined(fields);
    JoinedStart(fields);
    assert IsWord(fields[0]);
    assert Joined(fields)[0] == fields[0][0];
  }

  lemma {:induction false} JoinedStart(fields: seq<string>)
    requires fields != []
    ensures fields[0] <= Joined(fields)
  {
    if |fields| > 1 {
      JoinedStart(fields[..|fields| - 1]);
    }
  }

  /** A spec of six words hangs if some field is a star with step 0, and the fields before it are accepted. */
  lemma ZeroStepSpec(fields: seq<string>, n: nat, parseDuration: string -> Option<int>)
    requires |fields| == 6 && (forall k :: 0 <= k < 6 ==> IsWord(fields[k])) && !("@" <= fields[0])
    requires n < 6 && fields[n] == "*/0" && forall k :: 0 <= k < n ==> FieldMask(fields[k], FIELD_BOUNDS[k]).Value?
    ensures Parse(Joined(fields), parseDuration) == Hang
  {
    hide FieldMask, Joined, SplitSpec, FieldStuckAt, Parse, IsWord;
    SpecOfWords(fields);
    StarZeroIsStuck(FIELD_BOUNDS[n]);
    assert SpecStuckAt(fields, n);
    ParseReturnsUnless(Joined(fields), parseDuration);
  }

  lemma EveryZerothSecond(parseDuration: string -> Option<int>)
    ensures Parse("*/0 * * * * *", parseDuration) == Hang
  {
    hide Parse, FieldMask;
    var fields := ["*/0", "*", "*", "*", "*", "*"];
    assert fields[0][0] == '*';
    ZeroStepSpec(fields, 0, parseDuration);
    assert Joined(fields[..2]) == "*/0 *" by { assert fields[..2][..1] == ["*/0"]; }
    assert Joined(fields[..3]) == "*/0 * *" by { assert fields[..3][..2] == fields[..2]; }
    assert Joined(fields[..4]) == "*/0 * * *" by { assert fields[..4][..3] == fields[..3]; }
    assert Joined(fields[..5]) == "*/0 * * * *" by { assert fields[..5][..4] == fields[..4]; }
    assert Joined(fields) == "*/0 * * * * *";
  }

  // ---------- written forms ----------

  lemma SplitAt(a: string, c: char, b: string)
    requires c !in a && c !in b
    ensures Split(a + [c] + b, {c}) == [a, b]
  {
    SplitAppend(a, c, b, {c});
    SplitWhole(a, {c});
    SplitWhole(b, {c});
  }

  /** A numeral is not a name, so it stands for its number. */
  lemma NumeralIsNumber(n: nat, r: Bounds)
    requires r in FIELD_BOUNDS && n <= MAX_INT
    ensures ParseIntOrName(Numeral(n), r.names) == Value(n)
    ensures forall c <- Numeral(n) :: '0' <= c <= '9'
    ensures !IsStar(Numeral(n))
  {
    hide Numeral, Atoi;
    AtoiNumeral(n);
    var s := Numeral(n);
    assert ToLower(s)[0] == LowerChar(s[0]) == s[0];
    assert '0' <= s[0] <= '9';
  }

  /** `low-high/step` is every `step`-th value from `low` to `high`. */
  lemma RangeText(low: nat, high: nat, step: nat, r: Bounds)
    requires r in FIELD_BOUNDS && r.min <= low <= high <= r.max && 1 <= step <= MAX_INT
    ensures RangeMask(Numeral(low) + "-" + Numeral(high) + "/" + Numeral(step), r) == Value(Steps(low, high, step))
  {
    hide RangeMask, Numeral, Atoi, Steps, MustParseInt, ParseIntOrName, IsStar, Split;
    var range := Numeral(low) + "-" + Numeral(high);
    NumeralIsNumber(low, r);
    NumeralIsNumber(high, r);
    NumeralIsNumber(step, r);
    NumeralParses(step);
    assert range + "/" + Numeral(step) == range + ['/'] + Numeral(step);
    SplitAt(range, '/', Numeral(step));
    SplitAt(Numeral(low), '-', Numeral(high));
    assert Or(Steps(low, high, step), ZERO) == Steps(low, high, step);
    RangeMaskIs(range + "/" + Numeral(step), r);
  }

  /** "N/step" means "N-max/step". */
  lemma OpenRangeText(low: nat, step: nat, r: Bounds)
    requires r in FIELD_BOUNDS && r.min <= low <= r.max && 1 <= step <= MAX_INT
    ensures RangeMask(Numeral(low) + "/" + Numeral(step), r)
         == RangeMask(Numeral(low) + "-" + Numeral(r.max) + "/" + Numeral(step), r)
  {
    hide RangeMask, Numeral, Atoi, Steps, MustParseInt, ParseIntOrName, IsStar, Split;
    RangeText(low, r.max, step, r);
    NumeralIsNumber(low, r);
    NumeralIsNumber(step, r);
    NumeralParses(step);
    SplitAt(Numeral(low), '/', Numeral(step));
    assert Numeral(low) + ['/'] + Numeral(step) == Numeral(low) + "/" + Numeral(step);
    SplitWhole(Numeral(low), {'-'});
    assert Or(Steps(low, r.max, step), ZERO) == Steps(low, r.max, step);
    RangeMaskIs(Numeral(low) + "/" + Numeral(step), r);
  }

  lemma NumeralParses(n: nat)
    requires n <= MAX_INT
    ensures MustParseInt(Numeral(n)) == Value(n)
  {
    AtoiNumeral(n);
  }

  /** A star with a step is every `step`-th value of the whole range, marked with the star bit. */
  lemma StarStepText(step: nat, r: Bounds)
    requires r in FIELD_BOUNDS && 1 <= step <= MAX_INT
    ensures RangeMask("*/" + Numeral(step), r) == Value(Or(Steps(r.min, r.max, step), STAR_BIT))
  {
    hide RangeMask, Numeral, Atoi, Steps, MustParseInt, ParseIntOrName, Split;
    NumeralIsNumber(step, r);
    NumeralParses(step);
    SplitAt("*", '/', Numeral(step));
    assert "*" + ['/'] + Numeral(step) == "*/" + Numeral(step);
    SplitWhole("*", {'-'});
    RangeMaskIs("*/" + Numeral(step), r);
  }

  /** A star is the whole range, marked with the star bit; a question mark is the same. */
  lemma StarText(r: Bounds)
    requires r in FIELD_BOUNDS
    ensures RangeMask("*", r) == RangeMask("?", r) == Value(All(r))
  {
    hide RangeMask;
    SplitWhole("*", {'/'});
    SplitWhole("*", {'-'});
    SplitWhole("?", {'/'});
    SplitWhole("?", {'-'});
    RangeMaskIs("*", r);
    RangeMaskIs("?", r);
  }

  // ---------- whole specs ----------

  /** Five fields mean the same as with a sixth field that is a star. */
  lemma SixthFieldDefaultsToStar(spec: string, parseDuration: string -> Option<int>)
    requires |FieldsFunc(spec, SPACES)| == 5
    ensures Parse(spec + " *", parseDuration) == Parse(spec, parseDuration)
         || spec[0] == '@'
  {
    hide FieldMasks;
    FieldsFuncAppend(spec, ' ', "*", SPACES);
    SplitWhole("*", SPACES);
    assert spec + " *" == spec + [' '] + "*";
    assert spec != "";
    assert NonEmpty(["*"]) == ["*"] + NonEmpty([]);
  }

  /** Whatever the parser returns can be scheduled. */
  lemma ParsedIsValid(spec: string, parseDuration: string -> Option<int>)
    requires Parse(spec, parseDuration).Value?
    ensures ValidSchedule(Parse(spec, parseDuration).value)
  {
    hide FieldMasks, SplitSpec, All, At;
  }

  /** A spec whose six fields all list something is inhabited, in the sense of the five-year limit. */
  lemma ParsedIsInhabited(fields: seq<string>)
    requires |fields| == 6 && FieldMasks(fields, 6).Value?
    requires forall k :: 0 <= k < 6 ==> Items(fields[k]) != []
    ensures Inhabited(ScheduleOf(FieldMasks(fields, 6).value))
  {
    hide FieldMask, Items, SomeIn;
    FieldMasksOutcome(fields, 6);
    forall k | 0 <= k < 6
      ensures SomeIn(FieldMasks(fields, 6).value[k], FIELD_BOUNDS[k].min, FIELD_BOUNDS[k].max)
    {
      FieldInBounds(fields[k], FIELD_BOUNDS[k], 0);
    }
    assert FIELD_BOUNDS[0] == SECONDS && FIELD_BOUNDS[1] == MINUTES && FIELD_BOUNDS[2] == HOURS;
    assert FIELD_BOUNDS[4] == MONTHS;
  }

  // ---------- descriptors ----------

  lemma AllAllows(r: Bounds, v: nat)
    requires r.max < 63 && v < 63
    ensures HasStar(All(r)) && (Test(All(r), v) <==> r.min <= v <= r.max)
  {
    hide Test, HasStar;
    HasStarIsMember(All(r));
    TestIsMember(All(r), v);
    assert v in MAX_UINT64;
  }

  lemma AtAllows(n: nat, v: nat)
    requires n < 63
    ensures !HasStar(At(n)) && (Test(At(n), v) <==> v == n)
  {
    hide Test, HasStar;
    ShlOne(n);
    HasStarIsMember(At(n));
    TestIsMember(At(n), v);
  }

  predicate Midnight(t: Clock) { Hour(t) == 0 && Minute(t) == 0 && Second(t) == 0 }

  /** The instants of a predefined schedule, as its documentation names them. */
  predicate DescriptorAllows(d: string, t: Clock) {
    if d == "@yearly" || d == "@annually" then Midnight(t) && Day(t) == 1 && Month(t) == 1
    else if d == "@monthly" then Midnight(t) && Day(t) == 1
    else if d == "@weekly" then Midnight(t) && Weekday(t) == 0
    else if d == "@daily" || d == "@midnight" then Midnight(t)
    else d == "@hourly" && Minute(t) == 0 && Second(t) == 0
  }

  const DESCRIPTORS := {"@yearly", "@annually", "@monthly", "@weekly", "@daily", "@midnight", "@hourly"}

  /** Every predefined schedule fires at exactly the instants its documentation names. */
  lemma DescriptorMeaning(d: string, parseDuration: string -> Option<int>, t: Clock)
    requires d in DESCRIPTORS
    ensures Parse(d, parseDuration).Value? && Parse(d, parseDuration).value.Spec?
    ensures Matches(Parse(d, parseDuration).value.spec, t) <==> DescriptorAllows(d, t)
  {
    hide Test, HasStar, All, At, Year, Month, Day, Hour, Minute, Second, Weekday;
    AtAllows(0, Second(t));
    AtAllows(0, Minute(t));
    AtAllows(0, Hour(t));
    AtAllows(1, Day(t));
    AtAllows(1, Month(t));
    AtAllows(0, Weekday(t));
    AllAllows(HOURS, Hour(t));
    AllAllows(DOM, Day(t));
    AllAllows(MONTHS, Month(t));
    AllAllows(DOW, Weekday(t));
  }
}
