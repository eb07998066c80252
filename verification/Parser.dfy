/** The crontab parser of crons/parser.go: from text to bit masks. */
module Parser {
  import opened Basics
  import opened Words
  import opened Text
  import opened SpecSchedules
  import opened Schedules

  /** The acceptable values of a field, and the names some of them have. */
  datatype Bounds = Bounds(min: nat, max: nat, names: map<string, nat>)

  const SECONDS := Bounds(0, 59, map[])
  const MINUTES := Bounds(0, 59, map[])
  const HOURS := Bounds(0, 23, map[])
  const DOM := Bounds(1, 31, map[])
  const MONTHS := Bounds(1, 12, map["jan" := 1, "feb" := 2, "mar" := 3, "apr" := 4, "may" := 5, "jun" := 6,
                                    "jul" := 7, "aug" := 8, "sep" := 9, "oct" := 10, "nov" := 11, "dec" := 12])
  const DOW := Bounds(0, 6, map["sun" := 0, "mon" := 1, "tue" := 2, "wed" := 3, "thu" := 4, "fri" := 5, "sat" := 6])

  /**
   What a parsing function does: it returns a value, it panics (which `Parse` turns into an error),
   or it never returns.  From the methods below, which wait for a given number of turns of the loop of
   `getBits`, `Hang` means that the loop is still running then.
   */
  datatype Outcome<+T> = Value(value: T) | Panic | Hang

  // ---------- getBits ----------

  predicate OnStep(i: nat, min: nat, max: nat, step: nat) {
    step >= 1 && min <= i <= max && (i - min) % step == 0
  }

  /** The bits from `min` to `max`, every `step`-th of them. */
  function Steps(min: nat, max: nat, step: nat): Word {
    set i | i in MAX_UINT64 && OnStep(i, min, max, step)
  }

  /** The variable of the loop of `getBits` after some turns. */
  function LoopVariable(min: nat, step: nat, turns: nat): nat {
    if turns == 0 then min else LoopVariable(min, step, turns - 1) + step
  }

  /** The loop of `getBits` would begin another turn; with a step of 1 it is not entered. */
  predicate StillLooping(min: nat, max: nat, step: nat, turns: nat) {
    step != 1 && LoopVariable(min, step, turns) <= max
  }

  ghost predicate NeverEnds(min: nat, max: nat, step: nat) {
    forall turns: nat :: StillLooping(min, max, step, turns)
  }

  lemma {:induction false} LoopVariableIs(min: nat, step: nat, turns: nat)
    ensures step == 0 ==> LoopVariable(min, step, turns) == min
    ensures step >= 1 ==> LoopVariable(min, step, turns) >= min + turns
  {
    if turns > 0 {
      LoopVariableIs(min, step, turns - 1);
    }
  }

  /** The loop fails to end exactly for a step of 0; otherwise `max + 1` turns are always enough. */
  lemma LoopEndsUnlessZero(min: nat, max: nat, step: nat)
    ensures NeverEnds(min, max, step) <==> step == 0 && min <= max
    ensures forall turns: nat :: turns > max && StillLooping(min, max, step, turns) ==> NeverEnds(min, max, step)
  {
    hide LoopVariable;
    forall turns: nat
      ensures step == 0 ==> LoopVariable(min, step, turns) == min
      ensures step >= 1 ==> LoopVariable(min, step, turns) >= min + turns
    {
      LoopVariableIs(min, step, turns);
    }
    assert NeverEnds(min, max, step) ==> StillLooping(min, max, step, max + 1);
  }

  /** `getBits`: shifts for a step of 1, a loop for any other; `None` if it has not ended after `turns` turns. */
  method GetBits(min: nat, max: nat, step: nat, turns: nat) returns (result: Option<Word>)
    ensures result.None? <==> StillLooping(min, max, step, turns)
    ensures result.Some? ==> result.value == Steps(min, max, step)
  {
    hide OnStep, LoopVariable;
    if step == 1 {
      ShiftedRange(min, max);
      return Some(And(Not(Shl(MAX_UINT64, max + 1)), Shl(MAX_UINT64, min)));
    }
    var bits, i, n := ZERO, min, 0;
    LoopBegins(min, max, step);
    while i <= max
      invariant n <= turns && i == LoopVariable(min, step, n) && (n > 0 ==> min <= max)
      invariant step >= 1 ==> min <= i && (i - min) % step == 0
      invariant step >= 1 ==> bits == set k | k in MAX_UINT64 && OnStep(k, min, max, step) && k < i
      invariant step == 0 ==> i == min && (n == 0 ==> bits == ZERO)
      decreases turns - n
    {
      if n == turns {
        return None;
      }
      LoopTurns(min, step, n);
      if step >= 1 {
        NextStep(min, i, step);
        StepsUpTo(min, max, step, i);
      }
      ShlOne(i);
      bits := Or(bits, Shl(ONE, i));
      i := i + step;
      n := n + 1;
    }
    LoopVariableGrows(min, step, n, turns);
    StepsEnd(min, max, step, i);
    return Some(bits);
  }

  lemma LoopBegins(min: nat, max: nat, step: nat)
    ensures LoopVariable(min, step, 0) == min
    ensures step >= 1 ==> (min - min) % step == 0 && forall k: nat :: OnStep(k, min, max, step) ==> min <= k
  {
    if step >= 1 {
      Division(min - min, step, 0, 0);
    }
  }

  lemma LoopTurns(min: nat, step: nat, turns: nat)
    ensures LoopVariable(min, step, turns + 1) == LoopVariable(min, step, turns) + step
  {}

  lemma {:induction false} LoopVariableGrows(min: nat, step: nat, n: nat, turns: nat)
    requires n <= turns
    ensures LoopVariable(min, step, n) <= LoopVariable(min, step, turns)
    decreases turns
  {
    if n < turns {
      LoopVariableGrows(min, step, n, turns - 1);
    }
  }

  lemma ShiftedRange(min: nat, max: nat)
    ensures And(Not(Shl(MAX_UINT64, max + 1)), Shl(MAX_UINT64, min)) == Steps(min, max, 1)
  {
    forall i | i in MAX_UINT64
      ensures i in And(Not(Shl(MAX_UINT64, max + 1)), Shl(MAX_UINT64, min)) <==> OnStep(i, min, max, 1)
    {
      ShiftedOnes(max + 1, i);
      ShiftedOnes(min, i);
    }
  }

  lemma ShiftedOnes(k: nat, i: Position)
    ensures i in Shl(MAX_UINT64, k) <==> k <= i
  {
    if k <= i {
      assert i - k in MAX_UINT64;
    }
  }

  lemma NextStep(min: nat, i: nat, step: nat)
    requires step >= 1 && min <= i && (i - min) % step == 0
    ensures (i + step - min) % step == 0
  {
    Division(i + step - min, step, (i - min) / step + 1, 0);
  }

  /** Between one step and the next there is no other. */
  lemma StepsUpTo(min: nat, max: nat, step: nat, i: nat)
    requires step >= 1 && min <= i <= max && (i - min) % step == 0
    ensures OnStep(i, min, max, step)
    ensures forall k: nat :: OnStep(k, min, max, step) ==> (k < i + step <==> k < i || k == i)
  {
    forall k: nat | OnStep(k, min, max, step) && i < k < i + step ensures false {
      Division(k - min, step, (i - min) / step, k - i);
    }
  }

  lemma StepsEnd(min: nat, max: nat, step: nat, i: nat)
    requires max < i
    ensures forall k: nat :: OnStep(k, min, max, step) ==> k < i
    ensures step == 0 ==> Steps(min, max, step) == ZERO
  {}

  // ---------- getRange ----------

  function MustParseInt(expr: string): (r: Outcome<nat>)
    ensures r != Hang
  {
    match Atoi(expr)
    case None => Panic
    case Some(n) => if n < 0 then Panic else Value(n)
  }

  function ParseIntOrName(expr: string, names: map<string, nat>): (r: Outcome<nat>)
    ensures r != Hang
  {
    if ToLower(expr) in names then Value(names[ToLower(expr)]) else MustParseInt(expr)
  }

  predicate IsStar(s: string) { s == "*" || s == "?" }

  /** First and last value of a range, before any step: a star, a single value or `low-high`. */
  function Ends(lowAndHigh: seq<string>, r: Bounds): (ends: Outcome<(nat, nat)>)
    requires |lowAndHigh| >= 1
    ensures ends != Hang
  {
    if IsStar(lowAndHigh[0]) then Value((r.min, r.max))
    else
      match ParseIntOrName(lowAndHigh[0], r.names)
      case Panic => Panic
      case Value(start) =>
        if |lowAndHigh| == 1 then Value((start, start))
        else if |lowAndHigh| == 2 then
          match ParseIntOrName(lowAndHigh[1], r.names)
          case Panic => Panic
          case Value(end) => Value((start, end))
        else Panic
  }

  datatype Range = Range(start: nat, end: nat, step: nat, star: bool)

  /** The meaning of `number | number "-" number [ "/" number ]`, with stars and names. */
  function ReadRange(expr: string, r: Bounds): (range: Outcome<Range>)
    ensures range != Hang
    ensures range.Value? ==> r.min <= range.value.start <= range.value.end <= r.max
  {
    var rangeAndStep := Split(expr, {'/'});
    var lowAndHigh := Split(rangeAndStep[0], {'-'});
    match Ends(lowAndHigh, r)
    case Panic => Panic
    case Value((start, end)) =>
      if |rangeAndStep| > 2 then Panic
      else
        var step := if |rangeAndStep| == 2 then MustParseInt(rangeAndStep[1]) else Value(1);
        var last := if |rangeAndStep| == 2 && |lowAndHigh| == 1 then r.max else end;
        if step.Panic? || start < r.min || last > r.max || start > last then Panic
        else Value(Range(start, last, step.value, IsStar(lowAndHigh[0])))
  }

  /** The mask of one range, unless the loop of `getBits` never ends on it. */
  ghost function RangeMask(expr: string, r: Bounds): Outcome<Word> {
    match ReadRange(expr, r)
    case Panic => Panic
    case Value(x) =>
      if NeverEnds(x.start, x.end, x.step) then Hang
      else Value(Or(Steps(x.start, x.end, x.step), if x.star then STAR_BIT else ZERO))
  }

  /** The range is well-formed, and `getBits` has not finished with it after some turns. */
  predicate StillInRange(expr: string, r: Bounds, turns: nat) {
    match ReadRange(expr, r)
    case Panic => false
    case Value(x) => StillLooping(x.start, x.end, x.step, turns)
  }

  /** A range hangs when it is still looping after any number of turns; more than `r.max` of them tell. */
  lemma RangeHangsIff(expr: string, r: Bounds)
    ensures RangeMask(expr, r) == Hang <==> forall turns: nat :: StillInRange(expr, r, turns)
    ensures forall turns: nat :: turns > r.max && StillInRange(expr, r, turns) ==> RangeMask(expr, r) == Hang
  {
    hide ReadRange, StillLooping;
    if ReadRange(expr, r).Value? {
      var x := ReadRange(expr, r).value;
      LoopEndsUnlessZero(x.start, x.end, x.step);
      if RangeMask(expr, r) != Hang {
        assert exists turns: nat :: !StillLooping(x.start, x.end, x.step, turns);
        var turns: nat :| !StillLooping(x.start, x.end, x.step, turns);
        assert !StillInRange(expr, r, turns);
      }
    } else {
      assert !StillInRange(expr, r, 0);
    }
  }

  /** `getRange`, with its panics as early returns. */
  method GetRange(expr: string, r: Bounds, turns: nat) returns (m: Outcome<Word>)
    ensures m == Hang <==> StillInRange(expr, r, turns)
    ensures m != Hang || turns > r.max ==> m == RangeMask(expr, r)
  {
    RangeHangsIff(expr, r);
    var start, end, step;
    var rangeAndStep := Split(expr, {'/'});
    var lowAndHigh := Split(rangeAndStep[0], {'-'});
    var singleDigit := |lowAndHigh| == 1;

    var extraStar := ZERO;
    if lowAndHigh[0] == "*" || lowAndHigh[0] == "?" {
      start, end, extraStar := r.min, r.max, STAR_BIT;
    } else {
      var low := ParseIntOrName(lowAndHigh[0], r.names);
      if !low.Value? {
        return Panic;
      }
      start := low.value;
      if |lowAndHigh| == 1 {
        end := start;
      } else if |lowAndHigh| == 2 {
        var high := ParseIntOrName(lowAndHigh[1], r.names);
        if !high.Value? {
          return Panic;
        }
        end := high.value;
      } else {
        return Panic;
      }
    }

    if |rangeAndStep| == 1 {
      step := 1;
    } else if |rangeAndStep| == 2 {
      var parsed := MustParseInt(rangeAndStep[1]);
      if !parsed.Value? {
        return Panic;
      }
      step := parsed.value;
      if singleDigit {
        end := r.max;
      }
    } else {
      return Panic;
    }

    if start < r.min || end > r.max || start > end {
      return Panic;
    }
    var bits := GetBits(start, end, step, turns);
    if bits.None? {
      return Hang;
    }
    return Value(Or(bits.value, extraStar));
  }

  // ---------- getField ----------

  /** First outcome that is not a value, or else the union. */
  function Union(a: Outcome<Word>, b: Outcome<Word>): Outcome<Word> {
    if !a.Value? then a else if !b.Value? then b else Value(Or(a.value, b.value))
  }

  ghost function ItemsMask(items: seq<string>, r: Bounds): Outcome<Word> {
    if items == [] then Value(ZERO)
    else Union(ItemsMask(items[..|items| - 1], r), RangeMask(items[|items| - 1], r))
  }

  function Items(field: string): seq<string> { FieldsFunc(field, {','}) }

  ghost function FieldMask(field: string, r: Bounds): Outcome<Word> { ItemsMask(Items(field), r) }

  /** `getField`: a comma-separated list of ranges. */
  method GetField(field: string, r: Bounds, turns: nat) returns (m: Outcome<Word>)
    ensures m != Hang || turns > r.max ==> m == FieldMask(field, r)
    ensures m == Hang ==> exists x <- Items(field) :: StillInRange(x, r, turns)
  {
    hide RangeMask, FieldsFunc, StillInRange;
    var bits := ZERO;
    var ranges := FieldsFunc(field, {','});
    for i := 0 to |ranges|
      invariant ItemsMask(ranges[..i], r) == Value(bits)
    {
      var x := GetRange(ranges[i], r, turns);
      assert ranges[..i + 1][..i] == ranges[..i];
      if !x.Value? {
        if x == RangeMask(ranges[i], r) {
          BadItem(ranges, i, r);
        }
        return x;
      }
      bits := Or(bits, x.value);
    }
    assert ranges[..|ranges|] == ranges;
    return Value(bits);
  }

  /** Nothing after the first item that fails is looked at. */
  lemma {:induction false} BadItem(items: seq<string>, i: nat, r: Bounds)
    requires i < |items| && ItemsMask(items[..i], r).Value? && !RangeMask(items[i], r).Value?
    ensures ItemsMask(items, r) == RangeMask(items[i], r)
    decreases |items|
  {
    hide RangeMask;
    var front := items[..|items| - 1];
    if i < |items| - 1 {
      assert front[..i] == items[..i];
      BadItem(front, i, r);
    }
  }

  // ---------- Parse ----------

  /** The fields of a spec; a missing sixth field means a star. */
  function SplitSpec(spec: string): (r: Option<seq<string>>)
    ensures r.Some? ==> |r.value| == 6
  {
    var fields := FieldsFunc(spec, SPACES);
    if |fields| == 6 then Some(fields)
    else if |fields| == 5 then Some(fields + ["*"])
    else None
  }

  const FIELD_BOUNDS: seq<Bounds> := [SECONDS, MINUTES, HOURS, DOM, MONTHS, DOW]

  /** The masks of the first `n` fields, in order; the first one that fails decides. */
  ghost function FieldMasks(fields: seq<string>, n: nat): (r: Outcome<seq<Word>>)
    requires n <= |fields| && n <= 6
    ensures r.Value? ==> |r.value| == n
  {
    if n == 0 then Value([])
    else
      match FieldMasks(fields, n - 1)
      case Panic => Panic
      case Hang => Hang
      case Value(front) =>
        match FieldMask(fields[n - 1], FIELD_BOUNDS[n - 1])
        case Panic => Panic
        case Hang => Hang
        case Value(m) => Value(front + [m])
  }

  /** `all`: every value of a field, with the star bit. */
  function All(r: Bounds): Word { Or(Steps(r.min, r.max, 1), STAR_BIT) }

  function At(min: nat): Word { Shl(ONE, min) }

  const EVERY := "@every "

  /** `parseDescriptor`; `time.ParseDuration` is a parameter. */
  function ParseDescriptor(spec: string, parseDuration: string -> Option<int>): Outcome<Schedule> {
    if spec == "@yearly" || spec == "@annually" then
      Value(Spec(SpecSchedule(At(SECONDS.min), At(MINUTES.min), At(HOURS.min), At(DOM.min), At(MONTHS.min), All(DOW))))
    else if spec == "@monthly" then
      Value(Spec(SpecSchedule(At(SECONDS.min), At(MINUTES.min), At(HOURS.min), At(DOM.min), All(MONTHS), All(DOW))))
    else if spec == "@weekly" then
      Value(Spec(SpecSchedule(At(SECONDS.min), At(MINUTES.min), At(HOURS.min), All(DOM), All(MONTHS), At(DOW.min))))
    else if spec == "@daily" || spec == "@midnight" then
      Value(Spec(SpecSchedule(At(SECONDS.min), At(MINUTES.min), At(HOURS.min), All(DOM), All(MONTHS), All(DOW))))
    else if spec == "@hourly" then
      Value(Spec(SpecSchedule(At(SECONDS.min), At(MINUTES.min), All(HOURS), All(DOM), All(MONTHS), All(DOW))))
    else if EVERY <= spec then
      match parseDuration(spec[|EVERY|..])
      case None => Panic
      case Some(d) => Value(Every(d))
    else Panic
  }

  function ScheduleOf(m: seq<Word>): SpecSchedule
    requires |m| == 6
  {
    SpecSchedule(m[0], m[1], m[2], m[3], m[4], m[5])
  }

  /** `Parse`: a panic, which includes reading the first character of "", becomes an error. */
  ghost function Parse(spec: string, parseDuration: string -> Option<int>): Outcome<Schedule> {
    if spec == "" then Panic
    else if spec[0] == '@' then ParseDescriptor(spec, parseDuration)
    else
      match SplitSpec(spec)
      case None => Panic
      case Some(fields) =>
        match FieldMasks(fields, 6)
        case Panic => Panic
        case Hang => Hang
        case Value(m) => Value(Spec(ScheduleOf(m)))
  }

  lemma NoFields(fields: seq<string>)
    ensures FieldMasks(fields, 0) == Value([])
  {}

  lemma OneMoreField(fields: seq<string>, n: nat)
    requires n < |fields| && n < 6 && FieldMasks(fields, n).Value? && FieldMask(fields[n], FIELD_BOUNDS[n]).Value?
    ensures FieldMasks(fields, n + 1)
         == Value(FieldMasks(fields, n).value + [FieldMask(fields[n], FIELD_BOUNDS[n]).value])
  {
    hide FieldMask;
  }

  /** The calls of `getField` in `Parse`, one field after the other. */
  method GetFields(fields: seq<string>, turns: nat) returns (o: Outcome<seq<Word>>)
    requires |fields| == 6
    ensures o != Hang || turns >= 60 ==> o == FieldMasks(fields, 6)
  {
    hide FieldMask, FieldMasks;
    NoFields(fields);
    var masks: seq<Word> := [];
    for i := 0 to 6
      invariant FieldMasks(fields, i) == Value(masks)
    {
      var m := GetField(fields[i], FIELD_BOUNDS[i], turns);
      if !m.Value? {
        if m == FieldMask(fields[i], FIELD_BOUNDS[i]) {
          BadField(fields, i, 6);
        }
        return if m == Panic then Panic else Hang;
      }
      OneMoreField(fields, i);
      masks := masks + [m.value];
    }
    return Value(masks);
  }

  /** `Parse`, waiting for `turns` turns of any loop of `getBits`. */
  method ParseSpec(spec: string, parseDuration: string -> Option<int>, turns: nat) returns (o: Outcome<Schedule>)
    ensures o != Hang || turns >= 60 ==> o == Parse(spec, parseDuration)
  {
    hide FieldMasks, FieldsFunc, ParseDescriptor;
    if spec == "" {
      return Panic;
    }
    if spec[0] == '@' {
      return ParseDescriptor(spec, parseDuration);
    }
    var fields := FieldsFunc(spec, SPACES);
    if |fields| != 5 && |fields| != 6 {
      return Panic;
    }
    if |fields| == 5 {
      fields := fields + ["*"];
    }
    var masks := GetFields(fields, turns);
    match masks
    case Panic => return Panic;
    case Hang => return Hang;
    case Value(m) => return Value(Spec(ScheduleOf(m)));
  }

  /** Nothing after the first field that fails is looked at. */
  lemma {:induction false} BadField(fields: seq<string>, i: nat, n: nat)
    requires i < n <= |fields| && n <= 6
    requires FieldMasks(fields, i).Value? && !FieldMask(fields[i], FIELD_BOUNDS[i]).Value?
    ensures !FieldMasks(fields, n).Value?
    ensures FieldMasks(fields, n) == Hang <==> FieldMask(fields[i], FIELD_BOUNDS[i]) == Hang
  {
    hide FieldMask;
    if i < n - 1 {
      BadField(fields, i, n - 1);
    }
  }
}
