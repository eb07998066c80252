/** What specs say that are written the usual way: numbers, names, ranges, and whole specs of them. */
module WrittenSpecs {
  import opened Basics
  import opened Calendar
  import opened Words
  import opened Text
  import opened SpecSchedules
  import opened Schedules
  import opened Parser
  import opened ParserLaws

  // ---------- names ----------

  const MONTH_NAMES := ["jan", "feb", "mar", "apr", "may", "jun", "jul", "aug", "sep", "oct", "nov", "dec"]

  const WEEKDAY_NAMES := ["sun", "mon", "tue", "wed", "thu", "fri", "sat"]

  /** `c` is the small letter, its capital, or one of the two other characters that are lowered to a letter. */
  predicate IsForm(c: char, letter: char) {
    || c == letter
    || letter as int - c as int == 'a' as int - 'A' as int
    || (letter == 'i' && c == '\U{130}')
    || (letter == 'k' && c == '\U{212A}')
  }

  predicate AllLetters(s: string) { forall c <- s :: 'a' <= c <= 'z' }

  /** `s` is the name, with each letter in any of its forms. */
  predicate Spells(s: string, name: string) {
    |s| == |name| && forall i :: 0 <= i < |s| ==> IsForm(s[i], name[i])
  }

  lemma {:induction false} SpelledLower(s: string, name: string)
    requires AllLetters(name)
    ensures ToLower(s) == name <==> Spells(s, name)
  {
    hide IsForm;
    if s != [] && name != [] {
      assert name[0] in name && forall c <- name[1..] :: c in name;
      SpelledLower(s[1..], name[1..]);
      LowerIs(s[0], name[0]);
      assert name == [name[0]] + name[1..];
    }
  }

  lemma LowerIs(c: char, letter: char)
    requires 'a' <= letter <= 'z'
    ensures LowerChar(c) == letter <==> IsForm(c, letter)
  {}

  /** The text stands for the number, as its numeral or as its name. */
  ghost predicate Stands(s: string, n: nat, r: Bounds) {
    || (s == Numeral(n) && n <= MAX_INT)
    || exists name <- r.names :: AllLetters(name) && Spells(s, name) && r.names[name] == n
  }

  lemma StandingText(s: string, n: nat, r: Bounds)
    requires r in FIELD_BOUNDS && Stands(s, n, r)
    ensures ParseIntOrName(s, r.names) == Value(n) && '/' !in s && '-' !in s && !IsStar(s)
  {
    hide Numeral, Atoi, ToLower;
    if s == Numeral(n) && n <= MAX_INT {
      NumeralIsNumber(n, r);
    } else {
      var name :| name in r.names && AllLetters(name) && Spells(s, name) && r.names[name] == n;
      SpelledLower(s, name);
      forall i | 0 <= i < |s| ensures s[i] != '/' && s[i] != '-' && s[i] != '*' && s[i] != '?' {
        assert name[i] in name;
      }
    }
  }

  /** The months are numbered from 1 and the weekdays from 0, in any mixture of capitals and small letters. */
  lemma MonthName(s: string, i: nat)
    requires i < 12 && Spells(s, MONTH_NAMES[i])
    ensures Stands(s, i + 1, MONTHS)
  {
    assert MONTH_NAMES[i] in MONTHS.names && MONTHS.names[MONTH_NAMES[i]] == i + 1;
  }

  lemma WeekdayName(s: string, i: nat)
    requires i < 7 && Spells(s, WEEKDAY_NAMES[i])
    ensures Stands(s, i, DOW)
  {
    assert WEEKDAY_NAMES[i] in DOW.names && DOW.names[WEEKDAY_NAMES[i]] == i;
  }

  /** No other text stands for a number in more than one way, and in the other fields there are no names. */
  lemma OnlyNumerals(s: string, n: nat, r: Bounds)
    requires r in FIELD_BOUNDS[..4] && Stands(s, n, r)
    ensures s == Numeral(n)
  {}

  // ---------- values and ranges ----------

  lemma OneValue(n: nat, r: Bounds)
    requires r.min <= n <= r.max < 63
    ensures Steps(n, n, 1) == {n}
  {
    assert n in MAX_UINT64;
  }

  /** A value stands for itself, if the field has it, and is refused otherwise. */
  lemma ValueText(s: string, n: nat, r: Bounds)
    requires r in FIELD_BOUNDS && Stands(s, n, r)
    ensures RangeMask(s, r) == if r.min <= n <= r.max then Value({n}) else Panic
  {
    hide RangeMask, Stands, Atoi, Steps, MustParseInt, ParseIntOrName, IsStar, Split;
    StandingText(s, n, r);
    SplitWhole(s, {'/'});
    SplitWhole(s, {'-'});
    RangeMaskIs(s, r);
    if r.min <= n <= r.max {
      OneValue(n, r);
      assert Or(Steps(n, n, 1), ZERO) == {n};
    }
  }

  /** The numbers that each field takes, as documented. */
  lemma DocumentedValues(n: nat)
    requires n <= MAX_INT
    ensures RangeMask(Numeral(n), FIELD_BOUNDS[0]).Value? <==> n <= 59
    ensures RangeMask(Numeral(n), FIELD_BOUNDS[1]).Value? <==> n <= 59
    ensures RangeMask(Numeral(n), FIELD_BOUNDS[2]).Value? <==> n <= 23
    ensures RangeMask(Numeral(n), FIELD_BOUNDS[3]).Value? <==> 1 <= n <= 31
    ensures RangeMask(Numeral(n), FIELD_BOUNDS[4]).Value? <==> 1 <= n <= 12
    ensures RangeMask(Numeral(n), FIELD_BOUNDS[5]).Value? <==> n <= 6
  {
    hide RangeMask, Numeral;
    forall k | 0 <= k < 6
      ensures RangeMask(Numeral(n), FIELD_BOUNDS[k]).Value? <==> FIELD_BOUNDS[k].min <= n <= FIELD_BOUNDS[k].max
    {
      ValueText(Numeral(n), n, FIELD_BOUNDS[k]);
    }
  }

  /** "low-high" is every value from the one to the other, and is refused if they are not two values in order. */
  lemma LowHighText(a: string, low: nat, b: string, high: nat, r: Bounds)
    requires r in FIELD_BOUNDS && Stands(a, low, r) && Stands(b, high, r)
    ensures RangeMask(a + "-" + b, r) == if r.min <= low <= high <= r.max then Value(Steps(low, high, 1)) else Panic
  {
    hide RangeMask, Stands, Atoi, Steps, MustParseInt, ParseIntOrName, IsStar, Split;
    var range := a + "-" + b;
    StandingText(a, low, r);
    StandingText(b, high, r);
    SplitWhole(range, {'/'});
    SplitAt(a, '-', b);
    assert range == a + ['-'] + b;
    RangeMaskIs(range, r);
    assert Or(Steps(low, high, 1), ZERO) == Steps(low, high, 1);
  }

  /** "low-high/step" is every `step`-th of them. */
  lemma LowHighStepText(a: string, low: nat, b: string, high: nat, step: nat, r: Bounds)
    requires r in FIELD_BOUNDS && Stands(a, low, r) && Stands(b, high, r) && 1 <= step <= MAX_INT
    ensures RangeMask(a + "-" + b + "/" + Numeral(step), r)
         == if r.min <= low <= high <= r.max then Value(Steps(low, high, step)) else Panic
  {
    hide RangeMask, Stands, Numeral, Atoi, Steps, MustParseInt, ParseIntOrName, IsStar, Split;
    var range := a + "-" + b;
    StandingText(a, low, r);
    StandingText(b, high, r);
    NumeralIsNumber(step, r);
    NumeralParses(step);
    SplitAt(range, '/', Numeral(step));
    SplitAt(a, '-', b);
    assert range == a + ['-'] + b;
    assert range + ['/'] + Numeral(step) == range + "/" + Numeral(step);
    RangeMaskIs(range + "/" + Numeral(step), r);
    assert Or(Steps(low, high, step), ZERO) == Steps(low, high, step);
  }

  /** "low/step" goes on to the end of the field. */
  lemma LowStepText(a: string, low: nat, step: nat, r: Bounds)
    requires r in FIELD_BOUNDS && Stands(a, low, r) && 1 <= step <= MAX_INT
    ensures RangeMask(a + "/" + Numeral(step), r)
         == if r.min <= low <= r.max then Value(Steps(low, r.max, step)) else Panic
  {
    hide RangeMask, Stands, Numeral, Atoi, Steps, MustParseInt, ParseIntOrName, IsStar, Split;
    StandingText(a, low, r);
    NumeralIsNumber(step, r);
    NumeralParses(step);
    SplitAt(a, '/', Numeral(step));
    SplitWhole(a, {'-'});
    assert a + ['/'] + Numeral(step) == a + "/" + Numeral(step);
    RangeMaskIs(a + "/" + Numeral(step), r);
    assert Or(Steps(low, r.max, step), ZERO) == Steps(low, r.max, step);
  }

  /** Whatever comes behind a star and a hyphen is ignored. */
  lemma StarHyphenText(a: string, b: string, r: Bounds)
    requires IsStar(a) && '/' !in b
    ensures RangeMask(a + "-" + b, r) == RangeMask(a, r)
  {
    hide RangeMask, Split;
    SplitWhole(a, {'/'});
    SplitWhole(a, {'-'});
    SplitWhole(a + "-" + b, {'/'});
    SplitAppend(a, '-', b, {'-'});
    assert a + "-" + b == a + ['-'] + b;
    RangeMaskIs(a, r);
    RangeMaskIs(a + "-" + b, r);
  }

  // ---------- what is refused ----------

  /** A text that is neither a star nor a name of the field nor a number. */
  predicate IsNoValue(s: string, r: Bounds) {
    !IsStar(s) && ToLower(s) !in r.names && (Atoi(s).None? || Atoi(s).value < 0)
  }

  /** Such a text is refused, alone and at either end of a range. */
  lemma NoValueRefused(a: string, b: string, r: Bounds)
    requires '-' !in a && '/' !in a && '-' !in b && '/' !in b && IsNoValue(a, r)
    ensures RangeMask(a, r) == Panic && RangeMask(a + "-" + b, r) == Panic
    ensures !IsStar(b) ==> RangeMask(b + "-" + a, r) == Panic
  {
    hide Split, ToLower, Atoi, RangeMask;
    SplitWhole(a, {'/'});
    SplitWhole(a, {'-'});
    SplitAt(a, '-', b);
    SplitAt(b, '-', a);
    SplitWhole(a + "-" + b, {'/'});
    SplitWhole(b + "-" + a, {'/'});
    assert a + "-" + b == a + ['-'] + b && b + "-" + a == b + ['-'] + a;
    RangeMaskIs(a, r);
    RangeMaskIs(a + "-" + b, r);
    RangeMaskIs(b + "-" + a, r);
  }

  /** A step must be a number. */
  lemma BadStepRefused(base: string, step: string, r: Bounds)
    requires '/' !in base && '/' !in step && (Atoi(step).None? || Atoi(step).value < 0)
    ensures RangeMask(base + "/" + step, r) == Panic
  {
    hide Split, Atoi, RangeMask, ParseIntOrName;
    SplitAt(base, '/', step);
    assert base + "/" + step == base + ['/'] + step;
    RangeMaskIs(base + "/" + step, r);
  }

  /** So are two slashes, and two hyphens unless a star comes first. */
  lemma TooManyRefused(a: string, b: string, c: string, r: Bounds)
    requires '-' !in a && '/' !in a && '-' !in b && '/' !in b && '-' !in c && '/' !in c
    ensures RangeMask(a + "/" + b + "/" + c, r) == Panic
    ensures !IsStar(a) ==> RangeMask(a + "-" + b + "-" + c, r) == Panic
  {
    hide RangeMask, Split, ParseIntOrName, MustParseInt;
    ThreeParts(a, '/', b, c);
    ThreeParts(a, '-', b, c);
    assert a + "/" + b + "/" + c == a + ['/'] + b + ['/'] + c;
    assert a + "-" + b + "-" + c == a + ['-'] + b + ['-'] + c;
    SplitWhole(a + "-" + b + "-" + c, {'/'});
    RangeMaskIs(a + "/" + b + "/" + c, r);
    RangeMaskIs(a + "-" + b + "-" + c, r);
  }

  lemma ThreeParts(a: string, sep: char, b: string, c: string)
    requires sep !in a && sep !in b && sep !in c
    ensures Split(a + [sep] + b + [sep] + c, {sep}) == [a, b, c]
  {
    SplitAt(a, sep, b);
    SplitAppend(a + [sep] + b, sep, c, {sep});
    SplitWhole(c, {sep});
  }

  // ---------- whole specs ----------

  /** A field that is left open, or fixed at a number. */
  datatype Field = Any | Is(n: nat)

  function Written(f: Field): string { if f.Any? then "*" else Numeral(f.n) }

  predicate Fits(f: Field, v: nat) { f.Is? ==> f.n == v }

  predicate IsLegal(fs: seq<Field>)
    requires |fs| == 6
  {
    && (fs[0].Is? ==> fs[0].n <= 59) && (fs[1].Is? ==> fs[1].n <= 59) && (fs[2].Is? ==> fs[2].n <= 23)
    && (fs[3].Is? ==> 1 <= fs[3].n <= 31) && (fs[4].Is? ==> 1 <= fs[4].n <= 12) && (fs[5].Is? ==> fs[5].n <= 6)
  }

  function WrittenAll(fs: seq<Field>): (r: seq<string>)
    ensures |r| == |fs| && forall k :: 0 <= k < |fs| ==> r[k] == Written(fs[k])
  {
    if fs == [] then [] else [Written(fs[0])] + WrittenAll(fs[1..])
  }

  /** The crontab rule: a fixed day of month and a fixed weekday are alternatives, otherwise both fields must fit. */
  predicate FitsAll(fs: seq<Field>, t: Clock)
    requires |fs| == 6
  {
    && Fits(fs[0], Second(t)) && Fits(fs[1], Minute(t)) && Fits(fs[2], Hour(t)) && Fits(fs[4], Month(t))
    && if fs[3].Is? && fs[5].Is? then Day(t) == fs[3].n || Weekday(t) == fs[5].n
       else Fits(fs[3], Day(t)) && Fits(fs[5], Weekday(t))
  }

  lemma WrittenIsWord(f: Field)
    ensures IsWord(Written(f)) && !("@" <= Written(f)) && Items(Written(f)) == [Written(f)]
  {
    hide Numeral, Digits, Split;
    var s := Written(f);
    assert forall c <- s :: c == '*' || '0' <= c <= '9';
    assert s[0] != '@';
    SplitWhole(s, {','});
    assert NonEmpty([s]) == [s] + NonEmpty([]);
  }

  lemma FieldText(f: Field, r: Bounds, v: nat)
    requires r in FIELD_BOUNDS && (f.Is? ==> r.min <= f.n <= r.max) && r.min <= v <= r.max
    ensures FieldMask(Written(f), r).Value?
    ensures Test(FieldMask(Written(f), r).value, v) <==> Fits(f, v)
    ensures HasStar(FieldMask(Written(f), r).value) <==> f.Any?
  {
    hide RangeMask, FieldMask, Items, Test, HasStar, Numeral;
    WrittenIsWord(f);
    if f.Any? {
      StarText(r);
      AllAllows(r, v);
    } else {
      ValueText(Written(f), f.n, r);
    }
    OneItemField(Written(f), r);
    var m := FieldMask(Written(f), r).value;
    TestIsMember(m, v);
    HasStarIsMember(m);
  }

  lemma OneItemField(expr: string, r: Bounds)
    requires Items(expr) == [expr] && RangeMask(expr, r).Value?
    ensures FieldMask(expr, r) == RangeMask(expr, r)
  {
    hide RangeMask;
    assert ItemsMask([expr], r) == Union(ItemsMask([], r), RangeMask(expr, r));
    assert Or(ZERO, RangeMask(expr, r).value) == RangeMask(expr, r).value;
  }

  lemma AllAccepted(fs: seq<Field>)
    requires |fs| == 6 && IsLegal(fs)
    ensures FieldMasks(WrittenAll(fs), 6).Value?
  {
    hide FieldMask, FieldMasks, Written, Test, HasStar;
    assert FIELD_BOUNDS[0] == SECONDS && FIELD_BOUNDS[1] == MINUTES && FIELD_BOUNDS[2] == HOURS;
    assert FIELD_BOUNDS[3] == DOM && FIELD_BOUNDS[4] == MONTHS && FIELD_BOUNDS[5] == DOW;
    forall k | 0 <= k < 6 ensures FieldMask(WrittenAll(fs)[k], FIELD_BOUNDS[k]).Value? {
      FieldText(fs[k], FIELD_BOUNDS[k], FIELD_BOUNDS[k].min);
    }
    FieldMasksOutcome(WrittenAll(fs), 6);
  }

  lemma NumbersMatch(fs: seq<Field>, t: Clock)
    requires |fs| == 6 && IsLegal(fs) && FieldMasks(WrittenAll(fs), 6).Value?
    ensures Matches(ScheduleOf(FieldMasks(WrittenAll(fs), 6).value), t) <==> FitsAll(fs, t)
  {
    hide FieldMask, FieldMasks, Written, Test, HasStar, Year, Month, Day, Hour, Minute, Second, Weekday;
    FieldText(fs[0], SECONDS, Second(t));
    FieldText(fs[1], MINUTES, Minute(t));
    FieldText(fs[2], HOURS, Hour(t));
    FieldText(fs[3], DOM, Day(t));
    FieldText(fs[4], MONTHS, Month(t));
    FieldText(fs[5], DOW, Weekday(t));
    FieldMasksOutcome(WrittenAll(fs), 6);
    assert FIELD_BOUNDS[0] == SECONDS && FIELD_BOUNDS[1] == MINUTES && FIELD_BOUNDS[2] == HOURS;
    assert FIELD_BOUNDS[3] == DOM && FIELD_BOUNDS[4] == MONTHS && FIELD_BOUNDS[5] == DOW;
  }

  /** A spec of stars and numbers is accepted, and matches exactly the seconds with these numbers. */
  lemma SpecOfNumbers(fs: seq<Field>, parseDuration: string -> Option<int>, t: Clock)
    requires |fs| == 6 && IsLegal(fs)
    ensures var o := Parse(Joined(WrittenAll(fs)), parseDuration);
            o.Value? && o.value.Spec? && (Matches(o.value.spec, t) <==> FitsAll(fs, t))
  {
    hide FieldMasks, Joined, Written, SplitSpec, IsWord, FitsAll, IsLegal, Matches;
    var fields := WrittenAll(fs);
    forall k | 0 <= k < 6 ensures IsWord(fields[k]) && !("@" <= fields[k]) {
      WrittenIsWord(fs[k]);
    }
    SpecOfWords(fields);
    AllAccepted(fs);
    NumbersMatch(fs, t);
  }

  const HALF_PAST_NINE := [Is(0), Is(30), Is(9), Any, Any, Any]

  lemma HalfPastNineText()
    ensures Joined(WrittenAll(HALF_PAST_NINE)) == "0 30 9 * * *"
  {
    var fields := WrittenAll(HALF_PAST_NINE);
    assert Numeral(0) == "0" && Numeral(30) == "30" && Numeral(9) == "9";
    hide Numeral, WrittenAll;
    assert fields == ["0", "30", "9", "*", "*", "*"];
    assert Joined(fields[..2]) == "0 30" by { assert fields[..2][..1] == ["0"]; }
    assert Joined(fields[..3]) == "0 30 9" by { assert fields[..3][..2] == fields[..2]; }
    assert Joined(fields[..4]) == "0 30 9 *" by { assert fields[..4][..3] == fields[..3]; }
    assert Joined(fields[..5]) == "0 30 9 * *" by { assert fields[..5][..4] == fields[..4]; }
  }

  lemma HalfPastNineTime(t: Clock)
    ensures FitsAll(HALF_PAST_NINE, t) <==> t % 86400 == 9 * 3600 + 30 * 60
  {
    hide Year, Month, Day, Weekday;
    SplitClock(t);
    DayOfHour(t);
    HourOfMinute(t);
  }

  /** For example, this is half past nine every day. */
  lemma HalfPastNine(parseDuration: string -> Option<int>, t: Clock)
    ensures var o := Parse("0 30 9 * * *", parseDuration);
            o.Value? && o.value.Spec? && (Matches(o.value.spec, t) <==> t % 86400 == 9 * 3600 + 30 * 60)
  {
    hide Parse, Matches, FitsAll, WrittenAll, Joined;
    SpecOfNumbers(HALF_PAST_NINE, parseDuration, t);
    HalfPastNineText();
    HalfPastNineTime(t);
  }

  /** The column "Equivalent To" of the documentation's table of predefined schedules. */
  function EquivalentTo(d: string): (fs: seq<Field>)
    requires d in DESCRIPTORS
    ensures |fs| == 6
  {
    if d == "@yearly" || d == "@annually" then [Is(0), Is(0), Is(0), Is(1), Is(1), Any]
    else if d == "@monthly" then [Is(0), Is(0), Is(0), Is(1), Any, Any]
    else if d == "@weekly" then [Is(0), Is(0), Is(0), Any, Any, Is(0)]
    else if d == "@daily" || d == "@midnight" then [Is(0), Is(0), Is(0), Any, Any, Any]
    else [Is(0), Is(0), Any, Any, Any, Any]
  }

  /** A predefined schedule and its equivalent match the same seconds. */
  lemma DescriptorEquivalent(d: string, parseDuration: string -> Option<int>, t: Clock)
    requires d in DESCRIPTORS
    ensures var a, b := Parse(d, parseDuration), Parse(Joined(WrittenAll(EquivalentTo(d))), parseDuration);
      && a.Value? && a.value.Spec? && b.Value? && b.value.Spec?
      && (Matches(a.value.spec, t) <==> Matches(b.value.spec, t))
  {
    hide Parse, Matches, WrittenAll, Joined, Year, Month, Day, Hour, Minute, Second, Weekday;
    DescriptorMeaning(d, parseDuration, t);
    SpecOfNumbers(EquivalentTo(d), parseDuration, t);
  }

  /** Any other number of fields is an error, and so is no text at all. */
  lemma WrongCount(spec: string, parseDuration: string -> Option<int>)
    requires !("@" <= spec) && |FieldsFunc(spec, SPACES)| != 5 && |FieldsFunc(spec, SPACES)| != 6
    ensures Parse(spec, parseDuration) == Panic
  {
    hide FieldsFunc, FieldMasks;
  }

  // ---------- intervals, and unknown descriptors ----------

  /** "@every" with a duration is the constant delay of that duration, and an error if it is none. */
  lemma EveryText(duration: string, parseDuration: string -> Option<int>)
    ensures Parse("@every " + duration, parseDuration)
         == match parseDuration(duration) case None => Panic case Some(d) => Value(Every(d))
  {
    var spec := "@every " + duration;
    assert spec[0] == '@' && spec[7..] == duration && EVERY <= spec;
    assert forall d <- DESCRIPTORS :: d[1] != 'e' || |d| < 7;
    assert spec[1] == 'e' && spec[2] == 'v';
  }

  /** Any other text that begins like a descriptor is an error. */
  lemma UnknownDescriptor(spec: string, parseDuration: string -> Option<int>)
    requires "@" <= spec && spec !in DESCRIPTORS && !("@every " <= spec)
    ensures Parse(spec, parseDuration) == Panic
  {}
}
