# Go Time Recording in Dafny

This project models the parts of Go Time Recording whose correctness is not seen by
reading one function, and proves properties of them for every input and every run.

- **Public holidays.** Days are day numbers in a proved bijection with the dates of the
  proleptic Gregorian calendar. The computus of `easterSunday` is proved to give the first
  Sunday after the full moon of the Gregorian epact tables. The rules of all seventeen
  countries are kept as tables; a place's year is proved to lose no holiday and no
  substitute, to keep no day twice and to ascend strictly, across New Year as well.
- **Targets, leave and absences.** Plans and entitlements answer with the latest entry in
  force, a later entry changes no earlier answer, and a recorded absence holds exactly the
  working days of its range.
- **Shifts.** Recorded days are joined into the one split into maximal runs that touch at
  midnight, no minute is lost, and the notices of the Working Hours Act say of each shift
  exactly what its minutes and the gap before it call for.
- **The log.** The ring is a class over an array with the unbounded log as ghost state, and
  answers what that log would answer. A viewer that follows and names its process is told of
  every line once, and each line it is not given is accounted for. Beside it stand key concealment and the
  bounded line reader.
- **Announcements.** The hub and its streams are classes with the whole history as ghost
  state. What still stands is a function of that history, and every stream hears what stood
  when it was opened and then an in-order selection of what came later.
- **The calendar feed.** It is written as `ical.go` writes it and read by a reader made from
  RFC 5545 (sections 3.1, 3.3.4, 3.3.5, 3.3.11 and 3.6); what is read is what was written.
- **Updates and the installer.** Replacing the binary is modelled with every file operation
  free to fail and every state a stop can leave; the installer's handover as a state machine
  of any number of requests; storing the connection with a stop or a power cut at any moment.
- **Sentences and figures.** Filling placeholders is proved to be the only way that replaces
  each place by its value and leaves the rest alone; a written figure is read back.

Each module has a file of its own. Code that changes things step by step is a class or a
method with a loop, proved against a function; the lemmas are about that function.

## Findings

Where the code does something other than one would expect, the model keeps the code, shows
an input and says exactly when the expectation holds.

- *A position of zero is not followed on from.* A viewer that polled while the log was empty
  holds the position 0, and the next answer counts neither what fell out of the ring nor
  what the limit left out. The figures add up exactly when nothing did
  (`LogFollowing.PollFromZero`, `LogFollowing.ALineLostUnsaid`).
- *A viewer that names no process can miss lines.* Where the log was replaced and has grown
  past the position it holds, such a viewer is answered as if nothing had happened. No line is
  ever passed over exactly when every poll names its process or can be told to be of another
  (`LogFollowing.CompleteExactly`, `LogFollowing.ALinePassedOver`).
- *A swap needs a binary at its own path.* Where the path is empty, the next swap removes `.old`
  first, which is then the only binary; two installs reach this when two renames fail
  (`SelfUpdate.TwoInstallsLoseTheBinary`). A swap keeps a binary in every run exactly when there
  is one at the path (`SelfUpdate.SwapIsSafeExactlyWithSelf`), and a run keeps one exactly when
  no install gets to remove the last (`SelfUpdate.RunsKeepABinary`).
- *The already-installed guard reads the file.* Where the file cannot be read at that
  moment, the release is installed over itself and the way back is lost
  (`SelfUpdate.AlreadyInstalledTouchesNothing`, `SelfUpdate.UnreadableFileIsInstalledAgain`).
- *A rollback that fails can put back an older `.failed`.* If moving the running binary
  aside fails and so does the rename after it, the put-back takes whatever lies under
  `.failed`; it is harmless exactly when nothing else lies there
  (`SelfUpdate.RollbackIsHarmlessExactlyWithoutFailed`).
- *A save that has succeeded can be undone by a power cut.* The directory itself is never
  written to the disk, so a cut can bring an earlier connection back; it leaves one that was
  saved or was there at first, and never a part of one (`Datasources.ConfigDirectory.CutsCanUndoASave`,
  `Datasources.ConfigDirectory.CutsTakeNoConnection`).
- *The last day of the year 9999 makes a feed unreadable.* Its end is 1 January 10000,
  which has nine digits. A feed is read exactly when all the years in it have at most four
  digits (`ICalReader.FeedIsReadBack`, `ICalReader.TheLastDayIsRefused`).
- *Not every prefix conceals.* No key follows the prefix in any line written exactly when the
  prefix neither ends inside "[hidden]" nor runs on past another or its mark
  (`Conceal.ConcealsExactly`); for a prefix of key characters that is when it occurs in
  "hidden" at its end or not at all (`Conceal.OfKeyCharacters`). What is written tells nothing
  of a key exactly when the prefix is made of key characters, or begins with another and
  overlaps itself nowhere (`Conceal.UnwrittenExactly`): "a/a" fails the first, "key=" the second
  (`Conceal.TwoThatLeak`). With an empty prefix the loop never ends (`Conceal.EmptyPrefixStalls`).
  The one prefix in use is of both kinds (`Conceal.CalendarFeedsAreConcealable`).
- *The marks of a later prefix can make up an earlier one.* "y[" and "y" conceal by themselves,
  and of "yk" the two in turn leave "y[hidden]", in which a key follows "y["
  (`ConcealInTurn.ALaterPassLeaks`). A prefix outlasts every key that is replaced anywhere exactly
  when it can neither end inside a mark nor go on past one (`ConcealInTurn.OutlastsExactly`);
  where all but the last are such, no key follows any (`ConcealInTurn.NoKeyFollowsAny`).
- *An over-long line that no line feed ends may come without its note.* It does exactly when
  the last full buffer of the reader ends with the input (`LineReader.NoteIsMissingExactly`), as
  with 576 KiB of one letter (`LineReader.ALineCutUnsaid`). A line that a line feed ends is read
  the same whatever the buffer (`LineReader.EndedLinesAreReadAlike`).
- *Before the year 0 the computus gives another weekday.* Go divides toward zero. For a negative
  year the day is a Tuesday where h + l - 7m is below -21, and else a Sunday in leap years alone
  and a Saturday in all others (`Computus.WeekdayBeforeYearZero`): the year -1 has a Saturday,
  the leap year -40 a Tuesday (`Computus.YearMinusOne`, `Computus.YearMinusForty`). From the
  year 0 on it is Easter.

## Model

| member | source | states |
|---|---|---|
| Calendar.CivilOfDayOf | internal/domain/model/date.go:16-18 | every date is recovered from its day number |
| Calendar.DayOfCivilOf | internal/domain/model/date.go:16-18 | every day number is that of a real date, the one it is read as |
| Calendar.NextDay | internal/support/ical/ical.go:79 | the day after is the next in the month, else the first of the next month, else New Year's Day |
| Calendar.YearHolds | internal/domain/model/holiday_model.go:230 | a day lies between the New Year's Days of the year found for it and of the next |
| Calendar.YearIsUnique | internal/domain/model/holiday_model.go:230 | it lies in no other year |
| Calendar.KnownMonthsAndDays | internal/domain/model/date.go:16-18 | the lengths of the months, and that 1 January 1970 was a Thursday |
| Computus.GaussCorrection | internal/domain/model/holiday_model.go:396-397 | `g` is (8b + 13) / 25 for every century |
| Computus.MoonFromEpact | internal/domain/model/holiday_model.go:398 | `h`, less one in the two exceptional cases, counts the days from 21 March to the full moon of the epact tables |
| Computus.WeekTooFar | internal/domain/model/holiday_model.go:401 | `m` is 1 exactly when `l` is 6 in one of those cases |
| Computus.SundayAfter | internal/domain/model/holiday_model.go:399-400 | 22 March and `h` and `l` days on is a Sunday |
| Computus.EasterInItsYear | internal/domain/model/holiday_model.go:392-406 | for every year, negative ones too, the day lies from 11 February to 3 May of that year |
| Computus.WeekdayBeforeYearZero | internal/domain/model/holiday_model.go:392-406 | for every negative year the weekday of the day: Tuesday where h + l - 7m is below -21, else Sunday in leap years and Saturday in others |
| Computus.YearMinusOne | internal/domain/model/holiday_model.go:392-406 | the year -1 gives a Saturday |
| Computus.YearMinusForty | internal/domain/model/holiday_model.go:392-406 | and the leap year -40 a Tuesday, 1 March |
| Computus.EasterIsTheSundayAfterTheMoon | internal/domain/model/holiday_model.go:390-406 | from the year 0 on it is the one first Sunday strictly after the paschal full moon, from 22 March to 25 April |
| HolidayRules.WeekdayFrom | internal/domain/model/holiday_model.go:350-357 | the first such weekday on or after a day |
| HolidayRules.WeekdayUpTo | internal/domain/model/holiday_model.go:334-338 | the last such weekday on or before a day |
| HolidayRules.FindWeekdayFrom | internal/domain/model/holiday_model.go:351-357 | the loop forward ends, at that day |
| HolidayRules.FindWeekdayUpTo | internal/domain/model/holiday_de.go:53-61 | the loop backward ends, at that day |
| HolidayRules.FindDay | internal/domain/model/holiday_model.go:310-348 | the combinators with their loops give, for every form and year, the one day the form means by weekday and date |
| HolidayRules.DayOnIsMeant | internal/domain/model/holiday_model.go:310-357 | a date is that civil date; a day from Easter is that far from the Sunday after the paschal moon; an nth or last weekday, a weekday on or after a date, the Wednesday from 16 to 22 November, St Brigid's Day and a Saturday for a Sunday are the one day of their weekday in their week |
| HolidayRules.YearsOfARule | internal/domain/model/holiday_model.go:299-307 | a rule with a list of years holds in those; any other in all from its first to its last, both included, but those it excepts |
| HolidayRules.RegionsOfARule | internal/domain/model/holiday_model.go:295-297 | a rule holds in the regions its list names alone, and in all where it has none |
| HolidayRules.WeekdaysOfAMonth | internal/domain/model/holiday_model.go:320-340 | the nth weekday of a month lies in its nth seven days, the last in its last seven |
| HolidayRules.RuleStaysInItsYear | internal/domain/model/holiday_model.go:310-348 | every rule's day lies in the year it is asked for, for every form the tables use and every year |
| HolidayTables.CountriesValid | internal/domain/model/holiday_model.go:57-63 | no country has more than sixty rules, so that no substitute can be pushed a whole year on |
| HolidayTables.RulesStayInTheirYear | internal/domain/model/holiday_model.go:57-63 | every rule of every country gives a day of the year it is asked for |
| HolidayTables.WhoSubstitutes | internal/domain/model/holiday_gb.go:14-42 | only Britain takes the next free weekday and only the United States the nearest |
| HolidayYear.NextFree | internal/domain/model/holiday_model.go:366-370 | the earliest day from a day on that is a weekday and not taken; it exists for every finite set taken |
| HolidayYear.Nearest | internal/domain/model/holiday_model.go:373-384 | a weekend day has the one weekday beside it, a weekday none |
| HolidayYear.FindNextFree | internal/domain/model/holiday_model.go:359-371 | the loop ends and finds that day, for a weekend day and no other |
| HolidayYear.KeepHolding | internal/domain/model/holiday_model.go:236-255 | the first pass keeps each day once and `taken` holds exactly the days kept |
| HolidayYear.AddSubstitutes | internal/domain/model/holiday_model.go:263-270 | the second pass adds the substitutes by the order of their holidays, each for the days taken so far |
| HolidayYear.HolidaysOfYear | internal/domain/model/holiday_model.go:233-275 | both passes and both sorts give the year |
| HolidayYear.KeptDays | internal/domain/model/holiday_model.go:240-255 | the days kept are exactly those a rule that holds gives, and distinct |
| HolidayYear.KeptNames | internal/domain/model/holiday_model.go:247-254 | each is kept under the name of the first rule that gives it |
| HolidayYear.StandingExactly | internal/domain/model/holiday_model.go:235-261 | sorted, they are those days in strictly ascending order, all in the year |
| HolidayYear.OneSubstituteEach | internal/domain/model/holiday_model.go:263-270 | each weekend holiday has exactly one substitute, the earliest later weekday that is no holiday and no earlier substitute; a weekday holiday has none |
| HolidayYear.SubstitutesDistinct | internal/domain/model/holiday_model.go:238-270 | with the substitutes added, no day is kept twice |
| HolidayYear.YearLosesNothing | internal/domain/model/holiday_model.go:233-275 | a year is the holidays kept and their substitutes, each once and nothing else, and without a substitution the holidays alone |
| HolidayYear.NextFreeYear | internal/domain/model/holiday_model.go:233-275 | the whole year of such a country: holidays and substitutes, nothing else, strictly ascending |
| HolidayYear.SubstitutesReach | internal/domain/model/holiday_model.go:359-384 | a substitute lies within a year of its holiday |
| HolidayYear.YearReach | internal/domain/model/holiday_model.go:221-223 | what a year's rules give falls in that year or one beside it |
| Holidays.HolidaysInWindow | internal/domain/model/holiday_model.go:221-230 | the loop over three years and the filter give the window |
| Holidays.HolidaysIn | internal/domain/model/holiday_model.go:211-231 | what is no place has none |
| Holidays.PlacesExactly | internal/domain/model/holiday_model.go:83-131 | the places are the countries with their regions, each written in one way, and a place has the holidays of its country and region |
| Holidays.WindowIsComplete | internal/domain/model/holiday_model.go:221-230 | the window holds exactly the holidays and substitutes, of any year's rules, whose day falls in the year |
| Holidays.PlaceIsComplete | internal/domain/model/holiday_model.go:211-231 | and so does the answer for every place |
| Holidays.HolidaysFallInTheirYear | internal/domain/model/holiday_model.go:230 | every holiday of the answer falls in the year asked for |
| Holidays.HolidaysBetween | internal/domain/model/holiday_model.go:277-292 | the map holds exactly the holidays whose day is in the range, each under its day, across all its years |
| HolidayOrder.SubstitutesStayClose | internal/domain/model/holiday_model.go:359-371 | where weekend holidays have at most two neighbours, a substitute is at most four days on |
| HolidayOrder.BritainStaysInItsYear | internal/domain/model/holiday_gb.go:10-42 | every British substitute falls in the year of its holiday, whatever the year |
| HolidayOrder.OneNeighbourEach | internal/domain/model/holiday_model.go:373-384 | each Saturday holiday has its one substitute on the Friday before, each Sunday one on the Monday after, and no other holiday has one |
| HolidayOrder.FederalApart | internal/domain/model/holiday_us.go:10-25 | any two federal holidays, of any years, are at least three days apart |
| HolidayOrder.FederalYearAscends | internal/domain/model/holiday_us.go:5-25 | a year of federal holidays with its substitutes ascends strictly |
| HolidayOrder.HolidaysAscend | internal/domain/model/holiday_model.go:211-212 | in every place and year the holidays ascend strictly, so no day comes twice |
| HolidayOrder.NewYearKeptInTheOldYear | internal/domain/model/holiday_model.go:221-223 | a New Year's Day on a Saturday is among the old year's holidays of the United States, on 31 December |
| HolidayOrder.OverlapsAreKeptOnce | internal/domain/model/holiday_model.go:240-255 | where two rules of a country give one day of a year, a place keeps it exactly once, under the name of the earlier rule or of one before it |
| HolidayOrder.ReformationKeptOnce | internal/domain/model/holiday_de.go:41-43 | 31 October 2017 is kept in every German region, once, though several rules give it |
| Targets.DefaultWeekRestsAtTheWeekend | internal/domain/model/workweek_model.go:13-39 | the default week asks the target from Monday to Friday and nothing at the weekend |
| Targets.EachDayHasItsHours | internal/domain/model/workweek_model.go:6-15 | the k-th day from a Monday has the k-th hours of the week |
| Targets.TargetOn | internal/domain/model/workweek_model.go:61-73 | the loop with its early exit answers the hours of the week in force |
| Targets.WeekIsLatestInForce | internal/domain/model/workweek_model.go:55-70 | on a plan in order that is the latest schedule from no later than the day, or the week before the plan |
| Targets.NewScheduleKeepsThePast | internal/domain/model/workweek_model.go:55-70 | a schedule from a day on changes no answer before that day |
| Targets.EntitlementIn | internal/domain/model/vacation_model.go:35-45 | an entitlement is found exactly when one holds, and it is one from the latest year |
| Targets.OneLatest | internal/domain/model/vacation_model.go:32-45 | with one a year it is unique, in whatever order they come |
| Targets.NewEntitlementKeepsThePast | internal/domain/model/vacation_model.go:32-45 | an entitlement from a year on changes no answer before that year |
| Absences.Collect | internal/application/v1/service/absence_application_service.go:97-107 | the day loop collects the working days of the range in order |
| Absences.WorkedDays | internal/application/v1/service/absence_application_service.go:90-107 | one absence for each day of the range that is no holiday of the place and has a positive target, and no other |
| Absences.Record | internal/application/v1/service/absence_application_service.go:53-119 | the refusals in their order: the invalid fields, the range, a lookup that fails, a range with no working day, a storage that fails; else the absences, by the place the person or else the installation keeps |
| Absences.RefusedExactly | internal/application/v1/service/absence_application_service.go:58-80 | each refusal before the days are looked at and when it is given: all wrong fields at once, years from 1900 to 9999, a range that ends first or has more than 371 days, and what the repositories do not answer |
| Absences.WhoseHolidays | internal/domain/model/holiday_model.go:180-193 | a person's own choice of holidays comes before the installation's, and "none" has none |
| Absences.WorkWithoutASchedule | internal/domain/model/user_model.go:162-170 | without a schedule the working days are those from Monday to Friday that are no holiday, whatever the daily target |
| Absences.WorkingDaysExactly | internal/application/v1/service/absence_application_service.go:97-107 | the days collected are exactly the working days, each once and ascending |
| Absences.SplittingARange | internal/application/v1/service/absence_application_service.go:97-107 | recorded in two parts, each with the holidays of its own, a range gives the absences that recording it whole gives |
| Shifts.JoinDays | internal/domain/model/workday_model.go:137-165 | the merge in place gives the shifts |
| Shifts.ShiftsAreTheMaximalRuns | internal/domain/model/workday_model.go:128-165 | the shifts are the summaries of the split of the sorted days into maximal runs that touch at midnight |
| Shifts.RunsUnique | internal/domain/model/workday_model.go:128-165 | there is only one such split |
| Shifts.ShiftsIgnoreOrder | internal/domain/model/workday_model.go:138-139 | with one record a day the order of the input does not matter |
| Shifts.MinutesAreConserved | internal/domain/model/workday_model.go:149-161 | joining loses no worked minute and no break |
| Shifts.ShiftsAreWithoutGaps | internal/domain/model/workday_model.go:143-161 | what is worked in a shift and its breaks are all minutes from its beginning to its end |
| Shifts.ShiftsInTime | internal/domain/model/workday_model.go:143-162 | shifts follow each other with a gap of at least a minute between each two |
| Shifts.WorkingTimeNotices | internal/domain/model/workday_model.go:80-113 | the loop gives the notices of the shifts |
| Shifts.WhatIsSaid | internal/domain/model/workday_model.go:80-126 | run by run of the recorded days and rule by rule, exactly when each notice is given and with which minutes: of the minutes worked, of the breaks, and of the rest between the runs on the minute line, which is positive |
| Shifts.SaidInOrder | internal/domain/model/workday_model.go:80-126 | of a shift no rule is named twice, and they are named in one order |
| Shifts.NoticesExactly | internal/domain/model/workday_model.go:59-113 | each shift's notices stand under its own first day and nothing under any other day |
| Conceal.IndexIsFirst | internal/infrastructure/logsink/logsink.go:261 | the search finds the first occurrence if there is one |
| Conceal.KeysAreBase64 | internal/infrastructure/logsink/logsink.go:284-288 | a key is written in the 64 characters of base64 for addresses (section 5 of RFC 4648) |
| Conceal.OnlyKeysAreReplaced | internal/infrastructure/logsink/logsink.go:253-282 | whatever way a line is given in texts up to a first prefix and the whole key after it, those texts are written with a mark for each key and nothing else is taken away |
| Conceal.EveryLineInStretches | internal/infrastructure/logsink/logsink.go:253-282 | and every line is given so |
| Conceal.WithoutKeysAfter | internal/infrastructure/logsink/logsink.go:253-282 | the loop ends for every prefix that is not empty |
| Conceal.EmptyPrefixStalls | internal/infrastructure/logsink/logsink.go:260-281 | with an empty one it never ends, whatever the line: it is found in every round, and after the first the line stays as it is |
| Conceal.NoKeyFollows | internal/infrastructure/logsink/logsink.go:250-282 | after a prefix that neither ends inside the mark nor runs on, no key follows the prefix anywhere in what is written |
| Conceal.ConcealsExactly | internal/infrastructure/logsink/logsink.go:250-282 | and exactly after such a prefix, of all that are not empty |
| Conceal.OfKeyCharacters | internal/infrastructure/logsink/logsink.go:250-288 | of prefixes of key characters, those that occur in "hidden" at its end or not at all |
| Conceal.Idempotent | internal/infrastructure/logsink/logsink.go:253-282 | after such a prefix concealing twice is concealing once |
| Conceal.KeysAreNotWritten | internal/infrastructure/logsink/logsink.go:271-280 | after a prefix that stays whole, two lines that differ only in a key after it are written alike |
| Conceal.UnwrittenExactly | internal/infrastructure/logsink/logsink.go:253-282 | and exactly after such a prefix, of all that are not empty |
| Conceal.TwoThatLeak | internal/infrastructure/logsink/logsink.go:253-282 | "a/a" can leave a key behind it, and of "key=" a key can be read in what is written |
| Conceal.OthersUnchanged | internal/infrastructure/logsink/logsink.go:254-256 | a line without the prefix is left as it is |
| Conceal.CalendarFeedsAreConcealable | internal/application/v1/service/calendar_feed_application_service.go:24 | the prefix in use gives both guarantees |
| ConcealInTurn.ConcealAll | internal/infrastructure/logsink/logsink.go:238-248 | the loop over the prefixes ends with the line as the passes in turn leave it |
| ConcealInTurn.OutlastsExactly | internal/infrastructure/logsink/logsink.go:244-246 | a prefix no key follows is still followed by none after any key anywhere in the line is replaced, exactly when no mark can become a part of it |
| ConcealInTurn.PassKeepsEnded | internal/infrastructure/logsink/logsink.go:253-282 | a pass for any other prefix lets no key follow such a one |
| ConcealInTurn.NoKeyFollowsAny | internal/infrastructure/logsink/logsink.go:237-248 | after all passes no key follows any of the prefixes, where each conceals by itself and no mark can become a part of any but the last |
| ConcealInTurn.KeyCharactersStayUnmixed | internal/infrastructure/logsink/logsink.go:250-288 | prefixes of key characters that conceal by themselves are of that kind, and no others of key characters |
| ConcealInTurn.ALaterPassLeaks | internal/infrastructure/logsink/logsink.go:237-248 | of "y[" and "y" each conceals by itself, and the pass for the second lets a key follow the first |
| LineReader.ReadLine | internal/infrastructure/logsink/logsink.go:669-702 | the line and the rest are functions of the input, the limit and the buffer: what a line feed ends is given whole where it fits and else cut with the note, its tail consumed |
| LineReader.Reader.ReadLine | internal/infrastructure/logsink/logsink.go:675-676 | a piece of the buffer's size where the buffer fills, one carriage return at its end put back; else the line, what is left, or the end |
| LineReader.EndedLine | internal/infrastructure/logsink/logsink.go:663-702 | a line is read without the line feed, or the carriage return and line feed, that ends it: whole where it fits, and else its beginning and the note |
| LineReader.UnendedLine | internal/infrastructure/logsink/logsink.go:663-702 | a line that nothing ends is read whole where it fits |
| LineReader.EndedLinesAreReadAlike | internal/infrastructure/logsink/logsink.go:663-702 | a line that a line feed ends is read the same through any buffer |
| LineReader.NoteIsMissingExactly | internal/infrastructure/logsink/logsink.go:688-699 | of a line no line feed ends the note is missing exactly when the line is over-long and the last full buffer ends with the input |
| LineReader.WholeBuffers | internal/infrastructure/logsink/logsink.go:675-695 | without carriage returns that is when the size of the buffer divides the length of the input |
| LineReader.ALineCutUnsaid | internal/infrastructure/logsink/logsink.go:605-609 | at the sizes in use, 576 KiB of a letter lose 64 KiB without a note, and one letter more brings the note |
| LineReader.PieceOfALine | internal/infrastructure/logsink/logsink.go:675-695 | what a piece leaves of a line and of the lines after it |
| LineReader.Drain | internal/infrastructure/logsink/logsink.go:605-662 | the loop reads every line once, in order, an over-long one as one line |
| LineReader.LinesAreRead | internal/infrastructure/logsink/logsink.go:605-662 | lines written one after the other are read as those lines, and what stands after the last line feed as one more |
| LogSink.CutMessage | internal/infrastructure/logsink/logsink.go:309-316 | a message within the limit is kept whole; of a longer one its longest beginning within the limit that ends before a character begins, and the note |
| LogSink.MessageIsKept | internal/infrastructure/logsink/logsink.go:309-316 | this says of every message, whatever its bytes, the one way it is kept |
| LogSink.NoteInUtf8 | internal/infrastructure/logsink/logsink.go:585 | the note is a space, an ellipsis and the words in UTF-8 |
| LogSink.MessageIsCutBetweenCharacters | internal/infrastructure/logsink/logsink.go:309-316 | a message in UTF-8 is kept up to the end of a character, at most three bytes short of the limit |
| LogSink.Sink.constructor | internal/infrastructure/logsink/logsink.go:181-190 | an empty ring, of the default capacity where none is asked for |
| LogSink.Sink.Append | internal/infrastructure/logsink/logsink.go:308-330 | the ring agrees with the log and one record more, with the next number, the time and the tag it was given and its message as it is to be kept |
| LogSink.StoringMirrors | internal/infrastructure/logsink/logsink.go:321-329 | a record stored at the next place keeps the agreement, through the wrap |
| LogSink.MirrorsTheHeld | internal/infrastructure/logsink/logsink.go:479-496 | the two parts of the ring are the newest records of the log, oldest first |
| LogSink.Sink.OldestSeqHeld | internal/infrastructure/logsink/logsink.go:500-510 | the oldest number held is max(1, n - c + 1), or 0 where there is none |
| LogSink.Sink.HeldNewerThan | internal/infrastructure/logsink/logsink.go:479-496 | exactly the held records after a number, in their order |
| LogSink.Sink.Position | internal/infrastructure/logsink/logsink.go:397-420 | where a query is answered from, whether it restarted, and how many records fell out |
| LogSink.Sink.Query | internal/infrastructure/logsink/logsink.go:394-474 | the answer the unbounded log would give, less what the ring has let go |
| LogSink.PageOfAnAnswer | internal/infrastructure/logsink/logsink.go:433-473 | the records are the newest matching ones up to the limit, all newer than those left out, in time order with ties by number |
| LogSink.RestartIsTold | internal/infrastructure/logsink/logsink.go:394-474 | an answer says that it begins anew exactly when another process is named or the position is not reached; without a limit it holds exactly the matching lines still held from where it begins |
| LogSink.SortedInTimeOrder | internal/infrastructure/logsink/logsink.go:460-471 | sorting by time is a permutation that keeps equal times in the order of their numbers |
| LogFollowing.PollAccounts | internal/infrastructure/logsink/logsink.go:394-459 | of a following viewer, every line after the position it is answered from is returned, excluded, counted in Skipped or counted in Dropped, and the figures are those counts; a restart answers from the beginning and says so |
| LogFollowing.UnfilteredPollAccounts | internal/infrastructure/logsink/logsink.go:394-459 | without a filter records, Skipped and Dropped add up to the lines between the two positions |
| LogFollowing.PollFromZero | internal/infrastructure/logsink/logsink.go:399-420 | from a position of zero they add up exactly when nothing fell out and nothing was left out |
| LogFollowing.ALineLostUnsaid | internal/infrastructure/logsink/logsink.go:399-420 | a poll of an empty log, two lines into a ring of one, and the first line is neither given nor counted |
| LogFollowing.EachLineInOnePoll | internal/infrastructure/logsink/logsink.go:394-474 | over any run of appends, polls and replaced processes no line is in two answers; where the polls are recognised, the lines the viewer has passed are in exactly one |
| LogFollowing.CompleteExactly | internal/infrastructure/logsink/logsink.go:397-413 | at every moment of a run all lines passed are in exactly one answer, exactly when every poll names its process or can be told to be of another |
| LogFollowing.ALinePassedOver | internal/infrastructure/logsink/logsink.go:410-413 | a viewer that names no process passes over the line of a new one |
| LogFollowing.RunAccounts | internal/infrastructure/logsink/logsink.go:394-474 | over any run the figures of the running process's polls add up to at most the lines from the first position to the last, and to just those exactly where every poll was recognised and followed on or missed nothing |
| Announce.PublishingStands | internal/infrastructure/announce/announce.go:161-167 | the bookkeeping of a publication keeps the memory a function of the whole history |
| Announce.EachSaysOneThing | internal/infrastructure/announce/announce.go:76-84 | what each publication puts into force: maintenance until the next maintenance; the update last said, or none once it is cancelled |
| Announce.StandingSaysTheSame | internal/infrastructure/announce/announce.go:76-84 | what stands says of either thing what the whole history says |
| Announce.HeardIsInForce | internal/infrastructure/announce/announce.go:133-167 | whoever joined at any time and lost nothing holds the notice in force, Cancelled read as none |
| Announce.SubscribersAgree | internal/infrastructure/announce/announce.go:133-167 | so any two such subscribers agree |
| Announce.Hub.Subscribe | internal/infrastructure/announce/announce.go:93-131 | the stream holds what stands, which fits its buffer, or is closed where the hub is; its number is one no stream ever had |
| Announce.Hub.Publish | internal/infrastructure/announce/announce.go:155-175 | the history grows by one and each open stream takes it unless its buffer is full; what the streams were opened with and have received stays |
| Announce.Hub.Unsubscribe | internal/infrastructure/announce/announce.go:122-130 | the closer closes the stream of its number and no other, and nothing the next time |
| Announce.Hub.Close | internal/infrastructure/announce/announce.go:209-223 | every stream is closed, none twice, and no subscriber remains |
| Announce.Hub.Last | internal/infrastructure/announce/announce.go:179-191 | the update notice in force by the whole history |
| Announce.Hub.Receive | internal/infrastructure/announce/announce.go:93-131 | a subscriber takes the first that waits, its story grows by that alone, and the hub stays as it is |
| Announce.Hub.Hears | internal/infrastructure/announce/announce.go:93-175 | every stream has heard what stood when it was opened and then an in-order selection of what was said while it was open, all of that where nothing was dropped |
| ICalText.WriteText | internal/support/ical/ical.go:101-124 | the loop escapes the value character by character |
| ICalText.EachEscape | internal/support/ical/ical.go:101-114 | what the backslash, the semicolon, the comma and the line feed are written as |
| ICalText.TextIsReadBack | internal/support/ical/ical.go:95-124 | what is written is text by section 3.3.11 of RFC 5545, no comma, semicolon or control character bare and no unknown escape, and read it gives the value, CRLF as LF and control characters but the tab gone |
| ICalText.OrdinaryTextStays | internal/support/ical/ical.go:101-124 | a value without control characters comes back unchanged, and of one with nothing else nothing is left |
| ICalText.NormalisedInTwo | internal/support/ical/ical.go:101-124 | and what comes back of a value is what comes back of its parts |
| ICalText.TextIsOneLine | internal/support/ical/ical.go:97-98 | no text breaks its line |
| ICalText.Fold | internal/support/ical/ical.go:131-158 | the loops end, and write the pieces joined by folds |
| ICalText.ScanStopsSoon | internal/support/ical/ical.go:143-146 | on UTF-8 the backward scan stops within three bytes |
| ICalText.PiecesFit | internal/support/ical/ical.go:131-156 | every physical line has at most 75 octets, and the pieces are the line |
| ICalText.PiecesFill | internal/support/ical/ical.go:131-156 | a line that fits is not folded, and no physical line but the last is more than three octets short of the width |
| ICalText.CutsBetweenCharacters | internal/support/ical/ical.go:129-146 | every cut falls between characters: the pieces encode parts of the text |
| ICalText.UnfoldFolded | internal/support/ical/ical.go:126-158 | unfolding gives the line back |
| Utf8.DecodeEncode | internal/support/ical/ical.go:123 | what was encoded in UTF-8 is decoded again |
| ICal.DateIsReadBack | internal/support/ical/ical.go:78-79 | a date written is read back exactly when its year has at most four digits |
| ICal.MomentIsReadBack | internal/support/ical/ical.go:72 | and so is a moment |
| ICal.Write | internal/support/ical/ical.go:50-93 | the loops write the content lines of the feed, folded and ended |
| ICalReader.LinesAreReadBack | internal/support/ical/ical.go:53-56 | content lines written folded are read back line by line |
| ICalReader.EventIsRead | internal/support/ical/ical.go:74-89 | an event is read with its UID, the feed's moment, its whole day up to the next, its summary, its description where it has one, as transparent, each once and with nothing the reader does not know |
| ICalReader.EntriesAreTheEvents | internal/support/ical/ical.go:74-89 | the entries read are the events, one for one in their order |
| ICalReader.FeedIsReadBack | internal/support/ical/ical.go:50-93 | a strict reader by RFC 5545, which takes no property twice and keeps count of those it does not know, recovers what the feed says of itself, its name under both properties where it has one, and every event in order, or refuses the feed exactly where a year has no four digits |
| ICalReader.TheLastDayIsRefused | internal/support/ical/ical.go:79 | an event on 31 December 9999 makes the whole feed unreadable |
| Sentences.Fill | internal/support/i18n/i18n.go:89-121 | the loop ends and fills the sentence |
| Sentences.PlacesAreReplaced | internal/support/i18n/i18n.go:86-121 | a place is replaced by its value once, what stands before and after it is filled by itself, and no value is read again |
| Sentences.NothingNamed | internal/support/i18n/i18n.go:89-112 | a sentence without a place stays as it is, braces and all |
| Sentences.FillingIsDetermined | internal/support/i18n/i18n.go:86-121 | filling is the only way with these two properties |
| Sentences.FillingFills | internal/support/i18n/i18n.go:86-121 | and has them |
| Numbers.NamesExactly | internal/support/i18n/i18n.go:106-112 | braces name a value exactly where they hold its number, perhaps with zeros or a plus before it, or a minus before zero |
| Numbers.EachValueIsPut | internal/support/i18n/i18n.go:86-121 | every value has such a place and is put there |
| Numbers.Number | internal/support/i18n/i18n.go:161-183 | the loop groups the digits by one separator and sets the other before the two places; the sign is left out before a zero |
| Numbers.GroupsOf | internal/support/i18n/i18n.go:167-175 | groups of three, the first of one to three digits |
| Numbers.ReadingBack | internal/support/i18n/i18n.go:158-183 | with separators that hold no digit, the figure read back is the one written |
| Numbers.FigureIsRead | internal/support/i18n/i18n.go:158-183 | for all separators a reader that knows which is which, with three digits in each group but the first, takes a text for a figure exactly when it is that figure written; zero is written without a sign |
| Numbers.TwoLanguages | internal/support/i18n/i18n.go:158-160 | 1,234.50 in English and 1.234,50 in German |
| SelfUpdate.Updater.SwapIn | internal/infrastructure/selfupdate/swap.go:32-54 | the renames and removals in their order, each of which may fail |
| SelfUpdate.Updater.InstallOver | internal/infrastructure/selfupdate/selfupdate.go:360-438 | a second install at the same time touches nothing; the first goes through its steps |
| SelfUpdate.Updater.RollbackOver | internal/infrastructure/selfupdate/selfupdate.go:485-507 | the steps of going back |
| SelfUpdate.Updater.RemoveLeftovers | internal/infrastructure/selfupdate/swap.go:74-77 | the steps of clearing up |
| SelfUpdate.SwapKeepsTheBinary | internal/infrastructure/selfupdate/swap.go:8-54 | whichever operations fail and wherever it is stopped, the binary that was at the path is there or at `.old` |
| SelfUpdate.SwapLosesWithoutSelf | internal/infrastructure/selfupdate/swap.go:35-43 | where the path is empty a swap throws away the only binary |
| SelfUpdate.SwapIsSafeExactlyWithSelf | internal/infrastructure/selfupdate/swap.go:32-54 | a swap keeps a binary in every run exactly when there is one at the path |
| SelfUpdate.SwapOutcomes | internal/infrastructure/selfupdate/swap.go:32-54 | which outcome a swap has by the operations that fail, and what it leaves when it is not done |
| SelfUpdate.InstallKeepsTheBinary | internal/infrastructure/selfupdate/selfupdate.go:360-438 | the running binary is kept throughout; success leaves the file with the published sum at the path and the previous one at `.old` |
| SelfUpdate.UnfaultedInstall | internal/infrastructure/selfupdate/selfupdate.go:360-438 | an install nothing stands in the way of leaves the release at the path, the binary that ran aside, a note of the version, no download, and every other file as it was |
| SelfUpdate.InstallLeavesANote | internal/infrastructure/selfupdate/swap.go:53 | whatever fails, an install that succeeds leaves a note of its version, or a part of one |
| SelfUpdate.InstallOutcomes | internal/infrastructure/selfupdate/selfupdate.go:360-438 | where no operation fails, which outcome an install has and that it leaves the files as they were unless it is done |
| SelfUpdate.AlreadyInstalledTouchesNothing | internal/infrastructure/selfupdate/selfupdate.go:388-423 | a release in place is recognised exactly when the file can be read, and then nothing is touched |
| SelfUpdate.UnreadableFileIsInstalledAgain | internal/infrastructure/selfupdate/selfupdate.go:421-423 | where it cannot, the release replaces the version to go back to |
| SelfUpdate.AskingAgainChangesNothing | internal/infrastructure/selfupdate/selfupdate.go:408-423 | asking for the same release any number of times leaves every file as it is |
| SelfUpdate.RollbackPutsBack | internal/infrastructure/selfupdate/selfupdate.go:485-507 | success puts the file aside at the path; without one nothing happens |
| SelfUpdate.UnfaultedRollback | internal/infrastructure/selfupdate/selfupdate.go:485-507 | a rollback nothing stands in the way of puts the file aside at the path, keeps what ran under `.failed` and takes the note away |
| SelfUpdate.RollbackOutcomes | internal/infrastructure/selfupdate/selfupdate.go:485-507 | which outcome a rollback has by the operations that fail |
| SelfUpdate.RollbackKeepsTheOld | internal/infrastructure/selfupdate/selfupdate.go:485-507 | the previous binary is never lost on the way back |
| SelfUpdate.RollbackRevivesAnOlder | internal/infrastructure/selfupdate/selfupdate.go:495-500 | with a `.failed` from before, a rollback that fails can put that in place of the running binary |
| SelfUpdate.RollbackIsHarmlessExactlyWithoutFailed | internal/infrastructure/selfupdate/selfupdate.go:485-507 | without one, and only then, a rollback that fails loses nothing |
| SelfUpdate.StopThenRollback | internal/infrastructure/selfupdate/swap.go:41-51 | however a swap was stopped, a rollback puts back the binary where the path was left empty |
| SelfUpdate.CleanupKeepsBinaries | internal/infrastructure/selfupdate/swap.go:56-77 | starting up clears the note and the download and neither binary |
| SelfUpdate.RunsKeepABinary | internal/infrastructure/selfupdate/selfupdate.go:360-507 | over any run of installs, rollbacks and restarts with any failures there is always a binary to start or to put back, exactly where no install reaches its swap with the path empty and gets to remove the file aside |
| SelfUpdate.TwoInstallsLoseTheBinary | internal/infrastructure/selfupdate/swap.go:35-51 | two installs, of which the first can neither put the new binary in place nor the old one back, leave none |
| SelfUpdate.InstallThenRollback | internal/infrastructure/selfupdate/selfupdate.go:360-507 | after a successful install, however often asked for again, a successful rollback puts the previous binary back |
| Datasources.StoredOnce | internal/infrastructure/config/datasource.go:248-254 | the stored form is stored as it is and stays usable |
| Datasources.StoredAsAsked | internal/infrastructure/config/datasource.go:248-254 | a connection is stored as it was asked for, in every field, but of a SQLite file, in small letters or capitals, the dialect and the name alone |
| Datasources.UsableExactly | internal/infrastructure/config/datasource.go:67-106 | a connection can be saved exactly with a name that is not blank, and on a server of the two kinds with a host, a user and a port that is none or a number |
| Datasources.PortsExactly | internal/infrastructure/config/datasource.go:88-92 | the ports that are numbers of 64 bits |
| Datasources.SavedIsLoaded | internal/infrastructure/config/datasource.go:222-254 | what a save wrote is what is loaded, and is stored for the connection asked for; a save that failed wrote nothing; only a connection without a dialect is not loaded |
| Datasources.ConfigDirectory.SaveDatasource | internal/infrastructure/config/datasource.go:256-319 | however a save goes, every state on its way holds at the path what was there, but for the last of one that goes through, which holds whole what is stored for the connection asked for; the copy stays only after a stop or a removal that failed |
| Datasources.SaveIsAtomic | internal/infrastructure/config/datasource.go:285-319 | of each such state a power cut leaves the connection that was there or the new one |
| Datasources.ConfigDirectory.CutsTakeNoConnection | internal/infrastructure/config/datasource.go:285-319 | over any run of saves a power cut leaves at the path a connection that was saved or was there at first |
| Datasources.ConfigDirectory.CutsCanUndoASave | internal/infrastructure/config/datasource.go:305-319 | and it can bring back that of any earlier state |
| Installer.StepKeepsSound | internal/interface/installer/installer.go:347-404 | every step of every request keeps the handover in order |
| Installer.OneHandover | internal/interface/installer/installer.go:367-404 | however requests interleave, at most one reaches the handover, and its send never waits |
| Installer.FailedWriteChangesNothing | internal/interface/installer/installer.go:378-391 | a write that fails leaves the file, `saved` and every other request as they were and the lock free |
| Installer.AnotherCanBeHanded | internal/interface/installer/installer.go:171-177 | while nothing has been saved, any request that has been probed can go on to be handed over and loaded |
| Installer.HandedIsLoaded | internal/interface/installer/installer.go:149-164 | what `Serve` returns without an error is exactly what the next start loads, whatever the other requests still do |
| Installer.HandedWasAskedFor | internal/interface/installer/installer.go:352-404 | and it is stored for a connection that some request arrived with and whose probe worked |
| Installer.ArrivalCanBeHanded | internal/interface/installer/installer.go:347-404 | while the installer waits and nothing has been saved, any usable connection that arrives and whose probe works can go on to be handed over and loaded |

## Left out

- HTTP handlers, TLS, sign-in, the PDF and spreadsheet writers, images, the command line and the pages: foreign calls and wiring.
- Keys, tokens and checksums: cryptography, of which the model keeps only that a file has a sum.
- Downloading, fetching checksums and asking a binary for its version: a release says what arrives, which sum was published and what the file answers.
- `Capture`, the pipes and the parsing of log lines: the log begins with records and the reader with bytes.
- Levels, the search text and quiet requests: a query's filter is any predicate on records.
- Clocks and zones: a day is a number, a moment of UTC a day and a time of day, a record's time an integer; `time.Duration` and its range are not modelled.
- Widths of integers: the log's numbers and all minutes and days are unbounded, except the port of a connection, which is a number of 64 bits. A placeholder's number beyond 64 bits names no value in either.
- Floating point: targets and entitlements are reals, and a figure is its sign and its hundredths as rounding leaves them.
- Unicode case: a connection's dialect is compared by the ASCII letters alone, where Go also folds a few others.
- Text that is not valid UTF-8: a feed's texts are sequences of Unicode scalar values, which is what ranging over a Go string yields.
- JSON: a stored connection is kept as its fields.
- What a driver reads a connection as, and probing it: whether it does is an outcome a request meets.
- The order in which the hub reaches its streams: Go ranges over a map, the model over the numbers in any order.
- Readers that hand over the last bytes and the end in one call: a pipe does not, and the buffered reader is modelled over one.
- Real parallelism in the hub and the ring: their mutexes have methods run one at a time, and the methods are modelled that way; the installer's requests interleave step by step.
- Windows and its rules for renaming a running file: a rename replaces its target whole or fails.
- The order in which Go's unstable sort leaves equal keys: the holidays it sorts are proved to be on distinct days.
- Shifts.JoinDays: where several records share a day they are sorted as they came, which Go's sort does not promise; with one record a day there is only one order.
- Shifts.ShiftsAreTheMaximalRuns: the same holds of the order it speaks of.
- VALARM, time zones, quoted parameters and the other properties a reader of RFC 5545 may meet: the reader knows those the feed writes and only counts the rest.
- The picker of countries and the older spellings of a place: they answer by looking a name up.
- Whether each country's table is the law of that country: the tables are taken as they are.
- Vacation balances, overtime, reports and the bounds of single fields: a reading of one expression settles them.
- Absences.Record: the repositories' answers are parameters, failures among them, and what the storage does with the absences is its own.
- SelfUpdate.Updater.InstallOver: the lock is a flag, since what matters of it is that a second install is turned away.
- Announce.Hub.Receive: a receive that would wait is one that finds nothing.
