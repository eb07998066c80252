# A verified model of the cron engine, the job runner and the permission tree

The scheduler of this repository turns a line of crontab text into bit masks (`crons/parser.go`),
searches the calendar for the next second that the masks allow (`crons/spec.go`) and runs an event
loop that sleeps, starts the jobs that are due and serves additions, removals and listings
(`crons/cron.go`). On top of it `jobs/` keeps one entry per job key, limits the runs with a pool of
tokens, counts them and polls servers in turn. The permission tree (zTree) keeps three-state check
boxes and converts flat lists to forests and back.

The main results:

- **Text, calendar and loop together.** As long as an entry has a next time, the instants at which
  its job was started in any run of the loop are exactly the whole seconds after its admission that
  the text of its spec allows, each once and in increasing order (`CronFires.TextDecidesWhatFires`,
  `CronFires.EveryRunFiresExactlyOnce`; for the running object, `Crons.Cron.Run`).
- **`Next` is the least match**, found by a search with jumps that skips nothing
  (`NextCorrect.NextTimeIsNext`), and it is so exactly for offsets of whole hours
  (`NextCorrect.RightIffWholeHourOffset`).
- **The scheduler's invariant** holds in every state of every run, and under any interleaving of the
  registry's callers there is at most one entry per key and every entry is started as due
  (`CronModel.RunIsValid`, `Registry.AtMostOneEntryPerKey`, `Registry.EveryHistoryFiresAsDue`).
- **Runs are counted right** in every interleaving (`JobRun.CountsAreRight`), and every schedule comes
  to an end with all counts back to zero (`JobRun.EveryScheduleEnds`).
- **Check boxes stay consistent** under any series of clicks, and their three states mean all, none
  or some of the descendants (`CheckTree.OnCheckNode`, `CheckTree.StateMeaning`).
- **List to forest to list** loses exactly the nodes caught in a cycle (`NodeForest.ThereAndBack`).

How the files build on one another:

| files | contents |
|---|---|
| `Basics`, `Words`, `Text` | lists and multisets; 64-bit masks; splitting and reading text |
| `Calendar` | the proleptic Gregorian calendar and the arithmetic of `time.Date` and `AddDate` |
| `SpecSchedule`, `NextCorrect`, `Horizon` | the search, its correctness, its five-year horizon |
| `Parser`, `ParserLaws`, `StarSteps`, `WrittenSpecs` | the parser, what its masks mean, when it returns, what a star changes, what specs say as they are written |
| `Schedules`, `CronModel`, `CronFires` | schedules, the loop as a state machine, what a run fires |
| `Cron`, `JobTable` | the scheduler object, and the calls of `jobs/` on it, against the state machine |
| `Registry`, `JobRun`, `Poll` | interleaved callers, interleaved runs, round robin |
| `CheckTree`, `NodeForest` | the tree's check boxes; flat lists and forests |

Time is a number of nanoseconds since the start of year 1, and zero is Go's zero time, "never". The
location is a fixed offset from UTC in seconds. The methods follow the source's loops and jumps; each
is proved against a function or a step relation, and the lemmas are about those. Ghost fields
(`admitted`, `fired`, `ticks`) only record history. Methods of the parser take the number of turns of its
loop that one is willing to wait for; only a step of 0 ever uses them up.

Where the code does not do what its own text says, the code is modelled, and it is proved exactly when
it does:

- A step of 0 (`*/0`) is accepted and the parser never returns, though `Parse` documents an error for
  every spec that it cannot use. The loop of `getBits` is followed turn by turn, and the parser hangs
  if and only if the text has such a step behind accepted items (`ParserLaws.ParseReturnsUnless`). As
  `AddJob` holds a lock while it parses, such a call keeps the lock, and no job can be added any more
  (`Registry.StuckParserKeepsTheLock`). The controllers parse a spec before they store it
  (controllers/task.go:310, 352, 805 and 848), so there it is the request that hangs; the lock is
  reached by a spec that got into the table some other way, when it is loaded (jobs/init.go:28).
- `*/n` is called equivalent to `first-last/n`, but it sets the star bit. In the fields for seconds,
  minutes, hours and months that makes no difference, and in either day field it makes none if and only
  if the other one has a star as well, or nothing is restricted (`StarSteps.StarFormMatters`).
- `?` means `*` in every field, though the documentation lists it only for the two day fields
  (`ParserLaws.StarText`).
- A sixth field that is missing means `*`, though the documentation calls it mandatory
  (`ParserLaws.SixthFieldDefaultsToStar`).
- The hour step truncates in absolute time, so jobs are missed if and only if the offset is not a whole
  number of hours (`NextCorrect.RightIffWholeHourOffset`).
- A job for 29 February is given up if and only if the next one is beyond the five-year limit, as it is
  around 2100 (`HorizonLimits.LeapDayGivenUp`, `HorizonLimits.LeapDayMissedBefore2104`), and the loop
  then never starts it again (`CronModel.GivenUpForGood`).
- Job keys are built with a factor of 100000 where a comment says 10000, and they tell tasks apart
  if and only if server numbers have at most five digits (`JobTable.JobKeyNamesItsTask`).
- Runs of a job that is marked as non-concurrent exclude each other if and only if the pool has one
  token; the shipped configuration has 1000 (`JobRun.ExclusionIffOneToken`).
- Polling in turn is fair through the counter's wrap if and only if the number of servers divides 1002
  (`Polling.FairForeverIffDivides`), and it comes to a halt at the first server that is marked as bad
  (`Polling.DeadServerStopsTheRotation`). A server without a record is worse: the nil dereference comes
  ahead of the deferred recover of jobs/job.go:615, so it ends the whole process
  (`Polling.Counters.PollServer`).

## Model

| member | source | states |
|---|---|---|
| `SpecSchedules.Next` | crons/spec.go:55-145 | the imperative search with its jumps back to WRAP terminates and returns, for every schedule, offset and instant, what the recursive one-unit-at-a-time search returns |
| `SpecSchedules.StepsAdvance` | crons/spec.go:80-142 | every step of the search moves strictly forward, and the day, hour, minute and second steps by no more than their unit |
| `SpecSchedules.TruncateIs` | crons/spec.go:111-135 | truncation gives the last second so far at which a whole number of units has passed in absolute time |
| `SpecSchedules.MonthStepStays` | crons/spec.go:90-92 | a month step that does not land in January stays in its year, so leaving the inner loop there crosses no limit |
| `SpecSchedules.DayStepStays` | crons/spec.go:103-105 | a day step that does not land on the first stays in its month and year |
| `SpecSchedules.MonthTurn` | crons/spec.go:80-93 | a turn of the month loop keeps the outcome of the search, ahead of the year limit, whether or not a field was already reset |
| `SpecSchedules.DayTurn` | crons/spec.go:96-106 | the same for the day loop, which keeps the month fitting until it jumps back |
| `SpecSchedules.HourTurn` | crons/spec.go:108-118 | the same for the hour loop, which keeps the day fitting until it jumps back |
| `SpecSchedules.MinuteTurn` | crons/spec.go:120-130 | the same for the minute loop, which keeps the hour fitting until it jumps back |
| `SpecSchedules.SecondTurn` | crons/spec.go:132-142 | the same for the second loop, which keeps the minute fitting until it jumps back |
| `NextCorrect.MonthJump` | crons/spec.go:80-93 | a month step skips no match, and once a field was reset it starts from day 1 at midnight, so `AddDate` never normalises; it lands with all lower fields at their minimum |
| `NextCorrect.DayJump` | crons/spec.go:96-106 | the same for a day step, which starts from midnight once a field was reset |
| `NextCorrect.HourJump` | crons/spec.go:108-118 | the same for an hour step under a whole-hour offset |
| `NextCorrect.MinuteJump` | crons/spec.go:120-130 | the same for a minute step |
| `NextCorrect.SecondJump` | crons/spec.go:132-142 | the same for a second step |
| `NextCorrect.SearchIsFirstMatch` | crons/spec.go:73-144 | the search returns the first matching second through the end of the limit year, and none exactly when there is none |
| `NextCorrect.NextTimeIsNext` | crons/spec.go:53-145 | `Next` is the least instant strictly after the given one that is a whole second and matches; zero exactly when there is none through the fifth year after the upcoming second's |
| `NextCorrect.SkewedOffsetMisses` | crons/spec.go:111-112 | for every offset that is not a whole number of hours, and asked at any instant of the first hour of any day, `Next` passes over the one o'clock of that day, which a nightly job asks for and which lies ahead |
| `NextCorrect.RightIffWholeHourOffset` | crons/spec.go:108-118 | `Next` is the least match for all schedules and instants if and only if the offset is a whole number of hours |
| `HorizonLimits.HorizonSuffices` | crons/spec.go:67-76 | with nonempty masks, a next time exists and is no later than the following year, if every weekday is allowed with a day up to the 28th, or every day of month with some weekday, or neither has a star and there is a day up to the 28th or some weekday |
| `HorizonLimits.DayInMonth` | crons/spec.go:149-159 | under that condition each month of each year has a fitting day among its first 28 |
| `HorizonLimits.MatchInYear` | crons/spec.go:149-159 | under that condition each year has a match |
| `HorizonLimits.LeapDayGivenUp` | crons/spec.go:67-76 | a job for 29 February is given up exactly when neither this year nor the next five has a leap day ahead |
| `HorizonLimits.LeapDayMissedBefore2104` | crons/spec.go:67-76 | asked in 2097 or 2098 for 29 February, `Next` answers "never" although 29 February 2104 matches |
| `Calendar.FieldsOfSecondsOf` | crons/spec.go:65-85 | valid calendar fields survive being turned into seconds and back |
| `Calendar.SecondsOfFieldsOf` | crons/spec.go:65-85 | seconds survive being turned into calendar fields and back, so the two are in bijection |
| `Calendar.FieldsOrderIsClockOrder` | crons/spec.go:65-85 | that bijection keeps order: earlier in fields is earlier in seconds |
| `Calendar.DaysBeforeYearClosedForm` | crons/spec.go:81-85 | summing the years' lengths gives the rule with 4, 100 and 400 |
| `Calendar.MonthsFillTheYear` | crons/spec.go:81-89 | the twelve months have as many days as the year |
| `Calendar.MonthTable` | crons/spec.go:81-92 | where each month begins in its year, by a closed form that does not list the months' lengths |
| `Calendar.WeekdaysFollow` | crons/spec.go:149-153 | each day has the weekday after that of the day before |
| `Calendar.UnixEpoch` | crons/spec.go:81-85 | 1970-01-01 is day 719162 of the calendar, and a Thursday |
| `Calendar.KnownMondays` | crons/spec_test.go:10-56 | 9 July 2012 and 29 February 2016 fall on the Mondays on which the repository's examples put them |
| `Calendar.AddMonthIs` | crons/spec.go:87 | `AddDate(0, 1, 0)` in general, with the overflow of a short month carried into the next |
| `Calendar.AddMonthFromStart` | crons/spec.go:85-87 | from the first of a month it is the first of the following month |
| `Calendar.AddDayIs` | crons/spec.go:101 | `AddDate(0, 0, 1)` is the same time of the following day, through ends of months and years |
| `Words.TestIsMember` | crons/spec.go:81-151 | the test `1<<i & mask > 0` is membership of bit i |
| `Words.HasStarIsMember` | crons/spec.go:48-51 | the star bit is bit 63 and is read by masking |
| `Parser.GetBits` | crons/parser.go:145-158 | the loop and the shift fast path for step 1 both set exactly the bits from min to max in distances of step; for any step, 0 included, and any number of turns that one waits, it has not finished exactly if the loop variable has not passed max by then |
| `Parser.LoopEndsUnlessZero` | crons/parser.go:154-156 | the loop runs on for any number of turns if and only if the step is 0 and min is at most max; otherwise it ends within max + 1 turns |
| `Parser.ShiftedRange` | crons/parser.go:148-151 | the two shifts and the complement leave exactly the bits from min to max, 64-bit shifts losing what falls off |
| `Parser.GetRange` | crons/parser.go:68-119 | the imperative reading of a range, with its branches and panics, either fails, or computes the mask of the range as read, or is still in the loop of `getBits` after the turns one waits |
| `Parser.RangeHangsIff` | crons/parser.go:68-119 | a range counts as never finished if and only if the loop is still running after any number of turns, and waiting for more turns than the field's maximum settles it |
| `Parser.GetField` | crons/parser.go:56-64 | the loop over the items gives the union of their masks, or the outcome of the first bad item; if it is still at work, then on one of its items |
| `Parser.BadItem` | crons/parser.go:56-64 | the first item that is not accepted decides how the field fails, whatever follows |
| `Parser.ParseSpec` | crons/parser.go:18-52 | reading a spec field by field, with its errors, gives the schedule, the error or the endless loop that the text stands for; 60 turns are enough to tell |
| `Parser.BadField` | crons/parser.go:40-47 | the first field that is not accepted decides how the spec fails, whatever follows |
| `ParserLaws.RangeMaskMeaning` | crons/parser.go:68-119 | for every accepted range, bit i below the star bit is set iff i lies between start and end at a multiple of the step; the star bit iff the range was written with a star |
| `ParserLaws.CommaIsUnion` | crons/parser.go:56-64 | the mask of `a,b` is the union of the masks of `a` and `b`, for all texts, failures included |
| `ParserLaws.ItemsMaskIsUnion` | crons/parser.go:56-64 | a list is accepted iff each item is, and has a bit iff some item has |
| `ParserLaws.ItemOrderIrrelevant` | crons/parser.go:56-64 | order and repetition of list items do not matter |
| `ParserLaws.FieldInBounds` | crons/parser.go:95-118 | an accepted field has only bits in its bounds, and at least one if it has an item |
| `ParserLaws.FieldMeaning` | crons/doc.go:25-71 | a value is allowed by the mask iff some item of the text includes it |
| `ParserLaws.SpecMeaning` | crons/parser.go:18-52 | the parsed schedule matches a second iff the six fields of the text allow it, by the crontab rule for day of month and day of week |
| `ParserLaws.ZeroStepHangs` | crons/parser.go:98-118 | a range is still looping after any number of turns if and only if its ends are accepted and its step is 0 |
| `ParserLaws.ZeroStepText` | crons/parser.go:98-118 | such a range is written with one slash and a numeral of value 0 after it |
| `ParserLaws.FieldStuckIff` | crons/parser.go:56-64 | a field never finishes iff it has an item with step 0 and all items before that are accepted |
| `ParserLaws.ParseReturnsUnless` | crons/parser.go:18-52 | `Parse` never returns if and only if the spec is no descriptor, has five or six fields, and one has a step 0 behind accepted items and fields only |
| `ParserLaws.ParseReturnsWithoutZero` | crons/parser.go:18-52 | `Parse` returns from every spec in which no item of any field has, after its one slash, a numeral of value 0 |
| `ParserLaws.ZeroForOne` | crons/parser.go:98-118 | wherever a step of 1 is accepted, and only there, writing any numeral of value 0 in its place makes the range hang |
| `ParserLaws.ZeroStepSpec` | crons/parser.go:18-52 | six words with blanks between them hang the parser if one of them is `*/0` and the fields before it are accepted |
| `ParserLaws.EveryZerothSecond` | crons/parser.go:18-52 | the spec `*/0 * * * * *` hangs it |
| `ParserLaws.RangeText` | crons/doc.go:49-66 | `low-high/step` in decimal is the values from low to high in distances of step, in each field |
| `ParserLaws.OpenRangeText` | crons/doc.go:49-56 | `low/step` runs to the end of the field's range |
| `ParserLaws.StarStepText` | crons/parser.go:77-80 | `*/step` is every step-th value of the whole range and, other than `first-last/step`, the star bit |
| `StarSteps.StarStepMatters` | crons/doc.go:49-56 | as a day of month, the mask of `*/step` and that of `1-31/step` match the same seconds if and only if the weekdays have the star bit too, or the step is 1 and every weekday is allowed |
| `StarSteps.WeekdayStarMatters` | crons/doc.go:49-56 | as a weekday, the mask of `*/step` and that of `0-6/step` match the same seconds if and only if the days of month have the star bit too, or the step is 1 and every date of the allowed months is an allowed day of month |
| `StarSteps.StarElsewhere` | crons/spec.go:80-142 | in the masks of seconds, minutes, hours and months the star bit never makes a difference |
| `StarSteps.StarFormMatters` | crons/doc.go:49-56 | for each of the six fields, two specs that differ only in writing it `*/step` or `first-last/step` match the same seconds if and only if it is no day field, or the other day field is starred, or the step is 1 and the other day field, as written, restricts nothing |
| `ParserLaws.StarText` | crons/parser.go:77-80 | `*` and `?` both are the whole range with the star bit, in each field |
| `ParserLaws.SixthFieldDefaultsToStar` | crons/parser.go:34-38 | leaving the last of six fields out is the same as writing `*`, failures included |
| `ParserLaws.ParsedIsInhabited` | crons/parser.go:40-49 | fields with at least one item each give nonempty masks, as the horizon result needs |
| `ParserLaws.DescriptorMeaning` | crons/parser.go:167-219 | each predefined schedule matches exactly the instants its documentation names |
| `WrittenSpecs.StandingText` | crons/parser.go:122-142 | a numeral, and a name with its letters in any case, are read as the number that they stand for |
| `WrittenSpecs.MonthName` | crons/doc.go:33-40 | the twelve month names stand for 1 to 12, in any mixture of capitals and small letters |
| `WrittenSpecs.WeekdayName` | crons/doc.go:33-40 | the seven weekday names stand for 0 to 6, in any such mixture |
| `WrittenSpecs.SpelledLower` | crons/parser.go:124 | a text is lowered to a name exactly if it spells it, letter by letter, small or capital or as one of the two other characters that are lowered to a letter |
| `WrittenSpecs.ValueText` | crons/parser.go:82-86 | a number or name alone is that one value, and is refused exactly if the field does not have it |
| `WrittenSpecs.DocumentedValues` | crons/doc.go:30-37 | each of the six fields takes exactly the numbers that its line of the documentation lists |
| `WrittenSpecs.LowHighText` | crons/doc.go:63-66 | `low-high`, of numbers or names, is every value from the one to the other, and is refused exactly if these are not two values of the field in order |
| `WrittenSpecs.LowHighStepText` | crons/doc.go:49-66 | `low-high/step` is every step-th of them, and is refused in the same cases |
| `WrittenSpecs.LowStepText` | crons/doc.go:49-56 | `low/step` goes on to the end of the field, and is refused exactly if the field does not have the first value |
| `WrittenSpecs.StarHyphenText` | crons/parser.go:77-80 | what comes behind a star and a hyphen is ignored |
| `WrittenSpecs.NoValueRefused` | crons/parser.go:82-92 | a text that is neither a star nor a name nor a number is refused, alone and at either end of a range |
| `WrittenSpecs.BadStepRefused` | crons/parser.go:97-98 | a step that is no number is refused |
| `WrittenSpecs.TooManyRefused` | crons/parser.go:90-106 | two slashes are refused, and two hyphens that do not follow a star |
| `WrittenSpecs.SpecOfNumbers` | crons/parser.go:18-52 | a spec of stars and legal numbers is accepted, and matches exactly the seconds whose fields are these numbers, a day of month and a weekday being alternatives |
| `WrittenSpecs.HalfPastNine` | crons/doc.go:25-71 | `0 30 9 * * *` is half past nine every day |
| `WrittenSpecs.DescriptorEquivalent` | crons/doc.go:73-83 | each predefined schedule matches the same seconds as the spec that the documentation calls equivalent to it |
| `WrittenSpecs.WrongCount` | crons/parser.go:30-35 | a spec with any other number of fields than five or six is an error |
| `WrittenSpecs.EveryText` | crons/parser.go:221-228 | `@every` with a duration is the constant delay of that duration, and an error if it is none |
| `WrittenSpecs.UnknownDescriptor` | crons/parser.go:229-230 | any other text that begins like a descriptor is an error |
| `Text.SplitAppend` | crons/parser.go:59 | splitting `a`, a separator and `b` gives the parts of `a` and then those of `b` |
| `Text.FieldsFuncAppend` | crons/parser.go:59 | so does splitting that drops empty parts |
| `Text.FieldsOfJoined` | crons/parser.go:32 | words that are joined with blanks are split into the same words again |
| `Text.AtoiNumeral` | crons/parser.go:132-142 | the decimal numeral of a number in the 64-bit range is read back as that number |
| `Text.TwoDigits` | crons/parser.go:132-142 | one digit or two are read in base ten |
| `Text.AtoiSigned` | crons/parser.go:132-142 | signs are read, and numbers beyond 64 bits are refused |
| `Text.AtoiRefuses` | crons/parser.go:132-142 | text with any other character, and text without digits, is no number |
| `Text.SplitListed` | jobs/job.go:560 | a list of numbers with commas is split into their numerals |
| `Schedules.Every` | crons/constantdelay.go:14-21 | the delay is the duration rounded down to whole seconds, and exactly one second if it is shorter than that |
| `Schedules.DelayNextIs` | crons/constantdelay.go:25-27 | the next time is a whole second, later than the given one by more than the delay less a second and at most the delay |
| `Schedules.TenYearsOn` | crons/cron.go:158 | ten years on the date and the time of day are the same, but that a leap day becomes 1 March |
| `Schedules.NextIsLeastDue` | crons/cron.go:14-18 | for either kind of schedule, from the start or a due instant, `Next` is the least due instant after it; none is due before the horizon when it is zero |
| `CronModel.LessIsStrictWeakOrder` | crons/cron.go:57-72 | `Less` is a strict weak order in which the zero time is greatest |
| `CronModel.FireDueIs` | crons/cron.go:164-173 | in a sorted list the loop with its early break starts every due entry and changes no other |
| `CronModel.TickFiresExactlyTheDue` | crons/cron.go:154-173 | a tick starts exactly the entries whose next time is the least nonzero one, and leaves the others unchanged |
| `CronModel.IdleTickFiresNothing` | crons/cron.go:154-161 | a wake-up after ten idle years starts nothing and changes only the clock |
| `CronModel.KeepIsFilter` | crons/cron.go:180-187 | removal keeps exactly the entries that the callback does not select |
| `CronModel.KeepAppend` | crons/cron.go:180-187 | what is kept of a list and one more entry is what is kept of the list, and then that entry if it is not selected, so order is kept |
| `CronModel.SelectedIs` | crons/cron.go:180-187 | the callback decides by the entry's own schedule, next time, previous time and key |
| `CronModel.SelectKeepsValid` | crons/cron.go:163-198 | every branch of the select statement keeps the invariant |
| `CronModel.StepKeepsValid` | crons/cron.go:150-198 | every turn, for any sorting of the list, keeps the invariant: each entry's next time is what `Next` gives for its last start, and is later than the loop's last tick; a stop, added jobs and a new start keep it too |
| `CronModel.StartIsValid` | crons/cron.go:143-148 | the state in which the loop starts has the invariant |
| `CronModel.StartedIsValid` | crons/cron.go:143-148 | whatever the entries were, starting the loop at a time not before its last tick makes the state valid |
| `CronModel.RunIsValid` | crons/cron.go:143-199 | every state of every run has the invariant |
| `CronModel.ChainIncreases` | crons/cron.go:170-171 | an entry's starts strictly increase and all come after its admission |
| `CronModel.TicksOnlyGrow` | crons/cron.go:163-198 | a run never rewrites its history, and its clock does not go back |
| `CronModel.AdmittedSinceStart` | crons/cron.go:143-198 | no entry of a run was admitted before the loop started |
| `CronModel.NoInstantTwice` | crons/cron.go:143-199 | in every run the ticks strictly increase, no entry is started twice for one instant or ahead of its next time, and every nonzero next time is later than the last tick |
| `CronModel.PrevIsLastStart` | crons/cron.go:170-178 | in every run without a restart, an entry's previous time is its last start, and zero if it had none |
| `CronModel.GivenUpForGood` | crons/cron.go:150-198 | in every run, an entry that has no next time stays as it is and is never started again, until it is removed or the loop is started anew |
| `CronFires.EnvIsLawful` | crons/cron.go:154-161 | the parsed schedules and the calendar meet what the loop relies on: next times are later, and so is the time ten years on |
| `CronFires.ChainIsComplete` | crons/spec.go:55-145 | iterating `Next` from a start reaches every due instant through the last one reached, and nothing else |
| `CronFires.FiredExactly` | crons/cron.go:164-178 | in a valid state an entry was started at exactly its due instants before its next time |
| `CronFires.EveryRunFiresExactlyOnce` | crons/cron.go:143-199 | in every state of every run of a loop that was started within the calendar, an entry's starts are exactly its due instants since its admission or the loop's last start, each once and in increasing order: through the last tick, and once `Next` is zero through the horizon |
| `CronFires.TextDecidesWhatFires` | crons/cron.go:97-199 | for an entry scheduled with a spec, those starts are exactly the whole seconds that the text of the spec allows, with the same two ends |
| `Crons.Entry.constructor` | crons/cron.go:111-116 | a new entry has neither next nor previous time |
| `Crons.Entry.Copy` | crons/cron.go:213-220 | a copy is a new object with the same fields |
| `Crons.Less` | crons/cron.go:61-72 | the branches on the zero time decide the order of the state machine |
| `Crons.SortByTime` | crons/cron.go:152 | sorting by `Less` gives a sorted permutation of the same objects |
| `Crons.Cron.constructor` | crons/cron.go:75-84 | a new scheduler is stopped and has no entries |
| `Crons.Cron.AddStopped` | crons/cron.go:111-119 | while the loop is not running an entry is appended with no next time |
| `Crons.Cron.RunDue` | crons/cron.go:164-173 | the loop that updates the entries in place does to them what firing the due prefix does, and touches nothing else |
| `Crons.Cron.Admit` | crons/cron.go:176-178 | an added entry gets its next time from the loop's last `now` |
| `Crons.Cron.RemoveWhere` | crons/cron.go:180-187 | removal keeps the same objects, unselected ones only, in order |
| `Crons.Cron.EntrySnapshot` | crons/cron.go:211-222 | a listing consists of fresh copies of all entries, in order |
| `Crons.Cron.Start` | crons/cron.go:135-148 | starting, for the first time or again, computes every entry's next time from one `now` in place, keeps the previous times, and reaches a valid state |
| `Crons.Cron.StopTurn` | crons/cron.go:192-193 | a stop ends the loop and changes nothing else |
| `Crons.Cron.RestartTurn` | crons/cron.go:111-148 | a stop, any jobs scheduled meanwhile, and the next start are the state machine's restart event |
| `Crons.Cron.Effective` | crons/cron.go:154-161 | the loop sleeps until the first entry's next time, or for ten years |
| `Crons.Cron.TimerTurn` | crons/cron.go:164-174 | the timer's branch is the state machine's timer event |
| `Crons.Cron.AddTurn` | crons/cron.go:176-197 | the branch for additions is its add event, and refreshes `now` only afterwards |
| `Crons.Cron.RemoveTurn` | crons/cron.go:180-197 | the branch for removals is its remove event |
| `Crons.Cron.SnapshotTurn` | crons/cron.go:189-197 | the branch for listings is its snapshot event, and hands out copies in order |
| `Crons.Cron.Turn` | crons/cron.go:150-198 | one turn of the object, for any of the five events, is a step of the state machine, keeps it valid, answers a snapshot request from the sorted list, and lists no new object unless one is added |
| `Crons.Cron.Run` | crons/cron.go:143-199 | for all sequences of events the object goes through a run of the state machine that begins at its state and ends at its state, and every entry it ends with was started at exactly its due instants |
| `Registry.StepKeys` | crons/cron.go:150-198 | ticks and listings keep the set of keys, an addition brings in its key alone, a removal brings in none |
| `Registry.RemoveOneKey` | jobs/cron.go:47-56 | the removal of a job takes out its key and no other |
| `Registry.ActOnKey` | jobs/cron.go:31-68 | a key is present after a step of anyone if and only if `AddJob` brought it in, or it was present and was not removed |
| `Registry.AnswerTellsInsertion` | jobs/cron.go:31-45 | in every interleaving a call of `AddJob` answers true if and only if it brought its key into the table |
| `Registry.ActKeepsInv` | jobs/cron.go:31-56 | no step of any caller or of the loop gives two entries one key, lets two callers inside `AddJob`, or takes a key that was found free |
| `Registry.AtMostOneEntryPerKey` | jobs/cron.go:31-68 | in every interleaving of `AddJob`, `RemoveJob`, listings and ticks, at every point, there is at most one entry per key |
| `Registry.SchedulerStaysValid` | jobs/cron.go:31-68 | in every such interleaving the scheduler keeps its invariant |
| `Registry.HistoryIsRun` | jobs/cron.go:31-68 | seen from the scheduler, every interleaving of callers is a run of its loop |
| `Registry.EveryHistoryFiresAsDue` | jobs/cron.go:31-68 | in every interleaving, at every point, every entry comes from a text that the parser accepts, and its job was started at exactly its due instants so far, each once and in increasing order |
| `Registry.RemovedStaysAway` | jobs/cron.go:47-56 | in every interleaving, a key that was removed is absent until a call of `AddJob` brings it back |
| `Registry.OthersStay` | jobs/cron.go:47-56 | in every interleaving, a key stays present for as long as it is not itself removed |
| `Registry.StuckParserKeepsTheLock` | jobs/cron.go:31-45 | once an `AddJob` whose spec has a step 0 has found its key free, it holds the lock for good, no other call gets in, and no key ever enters the table again |
| `JobTable.FindKey` | jobs/cron.go:58-68 | the loop finds an entry with the key iff there is one |
| `JobTable.GetEntryById` | jobs/cron.go:58-68 | the answer is a fresh copy of an entry with that key, with its next and previous times, nil iff there is none, and only the clock and the order change |
| `JobTable.FrontIsSoonest` | jobs/cron.go:70-76 | nothing behind the front of a sorted list is due before anything in it, zero counting as latest, and the front is in order |
| `JobTable.GetEntries` | jobs/cron.go:70-76 | a panic exactly for negative sizes; otherwise as many entries as asked for or as there are, soonest first, and none left out is due before one listed |
| `JobTable.AddJob` | jobs/cron.go:31-45 | true iff the key was absent and the spec is accepted, and never back iff the key was absent and the parser hangs; if not added nothing but the clock and the order changes; else one entry with that key is added, and keys stay unique |
| `JobTable.RemoveJob` | jobs/cron.go:47-56 | every entry with the key goes, every other stays as often as before with its next and previous times, and the list is in order |
| `JobTable.Pause` | controllers/task.go:443-450 | all entries with the task's key on a listed server go, every other stays with its next and previous times, and the list is in order |
| `JobTable.NumbersAreRead` | controllers/task.go:447 | server numbers are read from decimal numerals, with or without a sign, and cut off at the limits of 64 bits |
| `JobTable.OtherTextIsZero` | controllers/task.go:447 | any other text counts as server 0 |
| `JobTable.PausedKeysOfList` | controllers/task.go:443-448 | for a list of server numbers the keys removed are exactly the task's number times 100000 plus one of them |
| `JobTable.PausedList` | controllers/task.go:443-450 | pausing a task with such a list leaves exactly the entries with other keys, each as often as before |
| `JobTable.JobKeyNamesItsTask` | libs/string.go:81-83 | a key with server number s differs from all keys of other tasks, numbered from 1 on, whose server numbers have at most five digits if and only if s has |
| `JobTable.PauseSparesOtherTasks` | controllers/task.go:443-450 | with server numbers of at most five digits pausing removes no entry of another task |
| `Polling.Counters.GetCounter` | jobs/job.go:61-67 | reads the counter, enters 0 at first sight, and changes no value |
| `Polling.Counters.SetCounter` | jobs/job.go:69-78 | advances a known counter, wrapping after 1001, and leaves all others alone |
| `Polling.Counters.PollServer` | jobs/job.go:558-598 | accepts exactly the server at the position that the counter picks, if it is the local one, or has a good record and is reachable; panics exactly if it has no record; records the outcome of the connection test and moves no counter |
| `Polling.Counters.Poll` | jobs/job.go:602-607 | the counter moves on exactly when the poll was accepted, no other task's counter moves, and only the tested server's record changes |
| `Polling.CanRotateIff` | jobs/job.go:558-607 | some poll of a task can be accepted if and only if the server whose turn it is is the local one or has a good record |
| `Polling.DeadServerStopsTheRotation` | jobs/job.go:558-607 | once the counter of a task is at a server that is down, it stays there and no poll of the task is accepted on any server, whatever is polled afterwards for any task |
| `Polling.TestDecidesWhoIsDown` | jobs/job.go:580-594 | a poll takes a server down exactly if it is its turn and the connection test fails; no poll brings one back or changes another |
| `Polling.FailedTestStopsTheRotation` | jobs/job.go:580-594 | one failed test ends the rotation of the task on all its servers, whatever is polled afterwards |
| `Polling.TurnInList` | jobs/job.go:558-576 | with a list of server numbers, a poll is accepted exactly on the number at the position that the counter gives, if that server is local, or has a good record and is reachable |
| `Polling.AfterWrapsAround` | jobs/job.go:69-78 | after k accepted polls the counter stands at the sum modulo 1002 |
| `Polling.FullCycle` | jobs/job.go:69-78 | 1002 accepted polls lead back to the same value |
| `Polling.TurnsArePicks` | jobs/job.go:558-607 | among any polls of any tasks, accepted or not, the counter of a task and the turns of its servers are those of its accepted polls alone |
| `Polling.ServerTurnsAreTurns` | jobs/job.go:566-573 | the turns of a position in a list without repetitions are the turns of the server there |
| `Polling.FairWithinACycle` | jobs/job.go:558-607 | as long as the counter of a task does not wrap, each server of a list without repetitions gets its share of the accepted polls, rounded down or up, however they are mixed with rejected polls and polls of other tasks |
| `Polling.FairForeverIffDivides` | jobs/job.go:61-78 | for a list of servers without repetitions: from every counter value, as many accepted polls of a task as it has servers come to each of them once, however they are mixed with others, if and only if the number of servers divides 1002 |
| `Polling.UnfairRound` | jobs/job.go:61-78 | if it does not, there are a board with all servers up and requests that make up such a round and never come to the last server |
| `JobRun.MoveKeepsInv` | jobs/job.go:615-633 | a move of one run keeps the counts right if tokens and status follow it |
| `JobRun.ActKeepsInv` | jobs/job.go:600-633 | every atomic step of every run keeps them right, panics included |
| `JobRun.LookDecides` | jobs/job.go:610-613 | a run is skipped exactly if it must not overlap and another run of its job is inside |
| `JobRun.CountsAreRight` | jobs/job.go:600-633 | in every interleaving of any number of runs the tokens are the runs between acquire and release and never exceed the pool's size, and a job's status is its runs inside the section |
| `JobRun.AllReturnedMeansZero` | jobs/job.go:615-633 | when all runs are over, however they ended, no token is out and every status is 0 |
| `JobRun.NoDeadlock` | jobs/job.go:621-626 | as long as one run is not over, some run can move, also with a full pool |
| `JobRun.ActShrinks` | jobs/job.go:600-633 | every step but an arrival leaves less to do over all runs |
| `JobRun.EveryScheduleEnds` | jobs/job.go:615-633 | from any reachable counts, once no new runs come every schedule ends, after no more steps than are ahead of the runs, and where none can move all runs are over, no token is out and every status is 0 |
| `JobRun.ExclusionIsNotKept` | jobs/job.go:610-630 | for no pool, and for every pool of two or more, there is a history in which two runs of a job marked as non-concurrent are inside the section at once |
| `JobRun.ExclusionIffOneToken` | jobs/job.go:610-630 | the runs of a job marked as non-concurrent exclude each other in all histories if and only if the pool has exactly one token |
| `JobRun.OverlapNeedsAnEarlyLook` | jobs/job.go:610-630 | with any pool, as long as no run of such a job is let through while another waits for the pool or is about to count itself, at most one is inside |
| `JobRun.Workers.AcquireToken` | jobs/job.go:621-622 | the send on the pool's channel is the model's acquire step |
| `JobRun.Workers.Increment` | jobs/job.go:630 | the increment is its counting step |
| `JobRun.Workers.Decrement` | jobs/job.go:631-633 | the deferred decrement is its uncounting step, after a return or a panic |
| `JobRun.Workers.ReleaseToken` | jobs/job.go:623-625 | the deferred receive is its release step |
| `JobRun.Workers.RunSection` | jobs/job.go:615-633 | from the pool to the last deferred call, tokens and all statuses end as they were |
| `JobRun.Workers.RunAlone` | jobs/job.go:610-633 | a run that need not poll, with nothing else moving, does its body iff the job may overlap or is not counted as running, and leaves pool and statuses as they were |
| `CheckTree.JoinIgnoresOrder` | static/zTree3/js/jquery.ztree.excheck.js:302-320 | the summary of children depends neither on their order nor on repetition |
| `CheckTree.MixedStaysMixed` | static/zTree3/js/jquery.ztree.excheck.js:309-319 | once some children are mixed the rest cannot change that, so the early breaks lose nothing |
| `CheckTree.OptedOutIsTransparent` | static/zTree3/js/jquery.ztree.excheck.js:303-304 | a child that opts out, with a state that summarises its own children, counts as these children would |
| `CheckTree.HalfCheckedMixes` | static/zTree3/js/jquery.ztree.excheck.js:305-306 | a child with a fixed half state makes its parent's state mixed |
| `CheckTree.MakeChkFlag` | static/zTree3/js/jquery.ztree.excheck.js:302-324 | over all child lists, with any mixture of flags, the loop with its breaks computes that summary: -1 if all are ignored, 0 or 2 if the rest agree on it, else 1 |
| `CheckTree.SetSonNodeCheckBox` | static/zTree3/js/jquery.ztree.excheck.js:540-572 | the recursion sets the node and all descendants that take part to the value, with a uniform state unless a child is disabled; it leaves the marks of those that opt out, resets the state of the ones without a box, and touches nothing else |
| `CheckTree.NoSiblingChecked` | static/zTree3/js/jquery.ztree.excheck.js:523-533 | the search among the siblings finds whether one is still checked, or has something checked below it if it opts out |
| `CheckTree.SetParentNodeCheckBox` | static/zTree3/js/jquery.ztree.excheck.js:510-539 | the node has the value unless it opts out, its state summarises its children, and on the way up ancestors are only changed to the value, all of them when checking, and none that opts out; on plain forests every ancestor is then checked iff one of its children is; nothing outside that path changes |
| `CheckTree.RepairParentChkClass` | static/zTree3/js/jquery.ztree.excheck.js:464-469 | every ancestor's state summarises its children afterwards, and no other state changes |
| `CheckTree.RepairParentChkClassWithSelf` | static/zTree3/js/jquery.ztree.excheck.js:470-478 | the same, and for the node itself if it has children |
| `CheckTree.CheckNodeRelation` | static/zTree3/js/jquery.ztree.excheck.js:410-423 | for every setting of `chkboxType`, the descendants that take part have the node's value if it is passed on downwards, and otherwise keep theirs; the ancestors are left alone unless it is passed on upwards; with "ps" both ways on a plain forest the path above is checked like its children; nothing else changes |
| `CheckTree.PartsMakeConsistent` | static/zTree3/js/jquery.ztree.excheck.js:333-345 | a uniform subtree, a repaired path and an untouched rest make a consistent forest |
| `CheckTree.OnCheckNode` | static/zTree3/js/jquery.ztree.excheck.js:333-345 | a click on any node of a consistent forest toggles its subtree and leaves the forest consistent: states summarise children, and an inner node is checked iff some child is |
| `CheckTree.Clicks` | static/zTree3/js/jquery.ztree.excheck.js:333-345 | any series of clicks keeps it consistent |
| `CheckTree.StateMeaning` | static/zTree3/js/jquery.ztree.excheck.js:278-326 | state 2 means that all descendants are checked, 0 that none is, -1 that there are none, and so 1 that they differ |
| `CheckTree.HalfMeansMixed` | static/zTree3/js/jquery.ztree.excheck.js:236-244 | `half` is reported exactly for subtrees that are neither wholly checked nor wholly unchecked |
| `CheckTree.StatusOfOthers` | static/zTree3/js/jquery.ztree.excheck.js:236-244 | nodes that opt out have no status, and a fixed half state is reported as half |
| `NodeForest.Table` | static/zTree3/js/jquery.ztree.core.js:669-671 | the lookup table holds for each id the last node that has it |
| `NodeForest.OwnerIs` | static/zTree3/js/jquery.ztree.core.js:669-680 | a node goes below the last node that has the identifier it names, unless that is its own identifier or nobody has it, and then it is a root |
| `NodeForest.TransformToZTreeFormat` | static/zTree3/js/jquery.ztree.core.js:661-687 | the result is the nodes without a parent in the list, and each node has the nodes that name it appended to its children, both in input order |
| `NodeForest.ForestByIds` | static/zTree3/js/jquery.ztree.core.js:661-687 | if no identifier occurs twice, the children of a node are exactly the other nodes that name it, and the roots are those that name themselves or nobody |
| `NodeForest.TransformToArrayFormat` | static/zTree3/js/jquery.ztree.core.js:644-660 | on any nested nodes, a list or a single one, the recursion lists every node followed by all below it |
| `NodeForest.FlattenedMembers` | static/zTree3/js/jquery.ztree.core.js:644-660 | a node is listed if and only if it is one of the given ones or is listed below one of them |
| `NodeForest.FlattenedForest` | static/zTree3/js/jquery.ztree.core.js:644-687 | on a forest that was built from a list this is the preorder that the owners in the list define |
| `NodeForest.DepthBoundExists` | static/zTree3/js/jquery.ztree.core.js:661-687 | the depths of nodes that hang from a root are bounded, for every input, so listing ends |
| `NodeForest.ParentFirst` | static/zTree3/js/jquery.ztree.core.js:644-660 | in the preorder list a node's parent comes before it |
| `NodeForest.ListedByOwner` | static/zTree3/js/jquery.ztree.core.js:644-660 | taking the children of one node out of the preorder list gives them in input order, each once |
| `NodeForest.SubtreesTogether` | static/zTree3/js/jquery.ztree.core.js:644-660 | between a node and one below it the list has nothing but what is below that node |
| `NodeForest.ListingOfForest` | static/zTree3/js/jquery.ztree.core.js:644-687 | the list of the forest has exactly the nodes whose parent chain ends, each once, parents before children, siblings in input order |
| `NodeForest.AcyclicIsPermutation` | static/zTree3/js/jquery.ztree.core.js:644-687 | without cycles it is a permutation of the input |
| `NodeForest.ThereAndBack` | static/zTree3/js/jquery.ztree.core.js:644-687 | all of that about the two methods run one after the other on the linked nodes, subtrees staying together |

## Left out

- 64-bit words are modelled by the set of positions of their one bits, with shifts that drop what falls outside 0 to 63.
- Time zones are one fixed offset: daylight saving and changes of a zone's offset are not modelled (crons/doc.go:102-108 excludes leap-ahead jumps).
- SpecSchedules.Next: instants before year 1 on the local clock are not modelled, nor, for offsets that are not whole hours, those in the very first hour of it.
- Go's `==` on times compares locations and monotonic readings too; here times are equal when their instants are.
- Clocks that run backwards and timers that deliver early are not modelled; how late the timer is and how far the clock moves between turns are parameters.
- Starting a scheduler that is already running, which makes a second loop, is not modelled, and neither is a removal while it is stopped, which blocks its caller.
- Crons.Cron.Start: the clock is not before the last `now` of an earlier run.
- Overflow of durations, of counters and of job keys is not modelled; `Atoi` has the 64-bit range, and its error for larger numbers.
- `time.ParseDuration` is a parameter of the parser. `strings.ToLower` is given only for the letters that can occur in a name the parser knows.
- Text is a sequence of characters; invalid UTF-8 is not modelled.
- Crons.SortByTime: Go's `sort.Sort` is not modelled step by step; an insertion sort stands for it, of which nothing is used but that the result is a sorted permutation, so nothing is said about the order of equal entries.
- JobTable.GetEntryById: which of several entries with one key is returned is not said; with unique keys there is one.
- JobTable.AddJob: states the effect of one undisturbed call; interleaved calls are in `Registry`.
- JobTable.Pause: no tick comes between the removals (`Registry.RemovedStaysAway` and `Registry.OthersStay` are about all interleavings); entries with equal next times may change places, because each turn sorts the list and the sort is not stable; the task's record in the database is left out.
- The snapshot exchange over the shared channel is one atomic step, as crons/doc.go:110-116 asks of callers.
- Running a job body (shell, SSH, telnet, agents, timeouts, logs, notification) is an opaque step that returns or panics; `Status++` and `Status--` are atomic, and data races on them are not modelled.
- Polling.Counters.PollServer: what the connection test would find is a parameter, and of a server's record only the status is kept; which of a server's positions is meant when it is listed twice is not told apart.
- Polling.Counters.Poll: poll and advance are one step; two tasks' executors that poll one counter at the same moment are not modelled.
- CheckTree.OnCheckNode: the invariants are stated for forests without `nocheck`, `chkDisabled` and `halfCheck` nodes and with "ps" both ways, as they do not hold otherwise; the code for those flags is in the methods all the same.
- CheckTree.SetSonNodeCheckBox: the state of a node with a disabled child is not stated; the invisible pseudo-root, triggers, CSS classes and other page elements are left out.
- CheckTree.MakeChkFlag: the branch for radio-style trees is left out.
- CheckTree.CheckNodeRelation: so is its branch for them, and which ancestors an unchecking reaches is stated only for plain forests.
- CheckTree.SetParentNodeCheckBox: the same about ancestors.
- Radio-style trees, and enabling or disabling nodes after the forest is built, are left out.
- NodeForest.TransformToZTreeFormat: identifiers are numbers, a node without children has an empty list, and the branches for an input that is no list or has no configured id key are left out.
- NodeForest.TransformToArrayFormat: no node is below itself, as the recursion does not end otherwise.
- Controllers, models, the database, sessions, permissions and the user interface are left out.
