# A verified model of Memos

Memos is a self-hosted note service written in Go. This project models four parts of it in which fast or stateful
code has to agree with a simple specification, and proves that agreement.

**Cron.** Time is a number of seconds (or nanoseconds) in the proleptic Gregorian calendar with a fixed offset
(`Calendar`). `CronSpec.Next` is the field-skipping search over six 64-bit sets (`Words`), written with its five loops
and its jump back to the month. It is proved against a reference scan, for all bit sets, including empty ones.
`CronParser` is the grammar of the fields, `SchedulerParser` the second, minute-stepping implementation of the
repository, and `Refinement` relates the two. `CronRuns` is the runner as a state machine and `Cron` the runner itself,
with entries that are objects and are updated in place.

**Filters.** `Cel` builds a condition (`FilterIr`) from an expression, `FilterRender` renders it to SQL text with
arguments, `FilterWhere` joins filters to a WHERE clause, and `MemoQuery` adds the driver's own criteria with their
arguments and says which memos the query selects. `Sql` holds the three-valued reading of SQL together with a grammar
that reads the text back; `FilterMeaning`, `TagText`, `Folding` and `CelMeaning` say what atoms, LIKE patterns over JSON
text, searches that ignore case, conditions and expressions mean on a row; `FilterPlan` is what lies between a condition
and its text: the folding of constants and the numbering of placeholders. `Selection` states the results end to end, and
`Access` applies them to the access check for memos.

**Deleting a user.** `Tables` holds the tables, `MemoTree` the two ways of finding the memos that go with a user, and
`UserDelete` the transaction: what it reads, the batched statements, and what is left.

**Caches.** `Cache` is the TTL cache with its counter and its eviction of the entries that expire first. `Store` is the
cached store in front of the database (`Driver`), with the cached settings as objects that list updates may change in
place (`SettingValues`); `StoreRuns` performs any sequence of calls.

`Arithmetic`, `Text`, `Lists` and `Wrappers` are shared helpers.

Where the code falls short of a property one would expect, an input shows it, and the exact condition under which it
holds is proved:

- Positional placeholders and folded constants: `Selection.CleanIffCountsMatch` is the condition; by
  `MemoQuery.SwallowedArgumentMisleads` the filter `content == "x" || (false && content == "ARCHIVED")` in a listing of
  normal memos makes SQLite and MySQL, where the driver ignores the surplus argument, compare the row status with
  "ARCHIVED"; by `Access.SwallowedArgumentPassesRestriction` also behind the restriction to what a user may read.
- `contains` is case-sensitive in the expression language and not in SQL, where also `%` and `_` in the needle are
  wildcards and in MySQL and PostgreSQL a backslash escapes: `FilterMeaning.ContainsExactIff`,
  `CelMeaning.ContainsFilterIgnoresCase` for the needle "a" and the content "A", and
  `CelMeaning.ContainsFilterMatchesWildcard` for any needle with wildcards, such as "@#$%" and the content "@#$".
- Comparing a flag that the payload omits: `FilterMeaning.JsonBoolExact`, and `CelMeaning.MissingFlagIsNotSelected` for
  `flag == false`.
- Membership in a list that the payload omits: `FilterMeaning.ElementInExactIff`, `FilterMeaning.TagInExactIff`, and
  `CelMeaning.MissingListIsNotSelected` for `!("x" in tags)`. Without a negation nothing is wrong
  (`CelMeaning.CompiledFilterSelects`).
- Wildcards in tag patterns: `TagText.ExactIffNoWildcard` and `TagText.WildcardMatchesOther`.
- A restricted listing without a row status: `Access.UnfilteredStatusIsExactIff` and `Access.ArchivedMemoStaysListed`.
- The two schedulers part when one day field is a star and the other leaves days out: `Refinement.SearchesAgreeIff`, and
  `Refinement.MonthlySearchesDiffer` for `* * 1 * *`.
- Notifications whose payload is not of their own type: `UserDelete.NotificationsCleanIff` and
  `UserDelete.MistypedNotificationSurvives`.
- A cached user is returned whatever else a query by id asks for: `Store.Store.GetUser` and
  `StoreRuns.NormalUserAmongArchived`.
- A list changed in the cache before a write that fails: `Store.Store.UpdatePATLastUsed`,
  `Store.Store.UpdateUserWebhook`, `StoreRuns.FailedStampIsCached` and `StoreRuns.FailedChangeIsCached`;
  `StoreRuns.Restore` repairs it.

## Model

| member | source | states |
|---|---|---|
| CronSpec.Next | internal/cron/spec.go:58-175 | the search ends for all bit sets and returns the reference answer: the first activation after the instant, or none through the end of the fifth year |
| CronSpec.NextActivationIsLeast | internal/cron/spec.go:56-88 | the answer is the least whole second strictly after the instant that matches all fields; it is missing exactly when none matches through the end of year Year(t+1s)+5 |
| CronSpec.FirstMatchIsLeast | internal/cron/spec.go:56-57 | the reference scan, which looks at every second in turn, finds the least match of a range or there is none |
| CronSpec.SkipSilent | internal/cron/spec.go:61-66 | leaving out a range without matches does not change what the scan finds |
| CronSpec.CrossingAligns | internal/cron/spec.go:84-172 | crossing into a second whose predecessor mismatches a field leaves everything below the first mismatching field at its minimum |
| CronSpec.TruncationOfAligned | internal/cron/spec.go:99-103 | once a loop has started, the truncation that the flag skips would change nothing |
| CronSpec.MonthStep | internal/cron/spec.go:97-110 | skipping to the next month passes no activation and lands on an aligned time, staying in the year unless that is in January |
| CronSpec.DayStep | internal/cron/spec.go:117-136 | skipping to the next day passes no activation and stays in the month unless it lands on day 1 |
| CronSpec.HourStep | internal/cron/spec.go:138-148 | skipping to the next hour passes no activation and stays in the day unless it lands on hour 0 |
| CronSpec.MinuteStep | internal/cron/spec.go:150-160 | skipping to the next minute passes no activation and stays in the hour unless it lands on minute 0 |
| CronSpec.SecondStep | internal/cron/spec.go:162-172 | skipping one second passes no activation and stays in the minute unless it lands on second 0 |
| CronSpec.Stop | internal/cron/spec.go:87-93 | past the year limit everything up to the limit is silent, so the answer is that there is none |
| Words.HasReadsBit | internal/cron/spec.go:97 | the masked test on a 64-bit word reads exactly that bit, and is false past the top |
| Calendar.FieldsOfDate | internal/cron/spec.go:102 | a time built from fields in range has those fields |
| Calendar.DateOfFields | internal/cron/spec.go:102 | the fields of a time determine it |
| Calendar.AddMonth | internal/cron/spec.go:104 | one month after the first second of a month is the first second of the next |
| Calendar.AddDays | internal/cron/spec.go:122 | adding days keeps the clock and moves the day number |
| Calendar.MonthLengths | internal/cron/spec.go:104-122 | the months have 30 and 31 days as usual, and February 29 in the years that 4 divides, but not 100, or 400 does |
| Calendar.WeekdayFollows | internal/cron/spec.go:182 | a day later it is the next day of the week |
| Calendar.Epoch | internal/cron/spec.go:182 | 1 January 1970 is day 719162, and a Thursday |
| Calendar.WeekdaySinceEpoch | internal/cron/spec.go:182 | the day of the week of every time, counted from that Thursday |
| CronParser.ParsesExactlyTheGrammar | internal/cron/parser.go:258-329 | a component is accepted exactly if the grammar derives it, with exactly the limits, step and star mark the grammar gives it |
| CronParser.GetBits | internal/cron/parser.go:355-368 | for accepted steps the loop over unsigned counters does not wrap and sets exactly the progression's bits |
| CronParser.ShiftsGiveInterval | internal/cron/parser.go:358-361 | the difference of two shifted masks is exactly the closed interval |
| CronParser.AcceptedRangeFits | internal/cron/parser.go:306-329 | every accepted component has limits and a step for which the computation of its bits is exact |
| CronParser.GetRange | internal/cron/parser.go:263-329 | the word of a component holds its progression, and bit 63 exactly for a star with step at most 1 |
| CronParser.GetField | internal/cron/parser.go:245-256 | the word of a field, or an error if one of its components is one |
| CronParser.FieldDenotesUnion | internal/cron/parser.go:242-256 | a field is accepted exactly when all its components are in the grammar; it then has bit i exactly for i in some progression, bit 63 exactly for some star with step at most 1, and no other bit |
| CronParser.NormalizeFields | internal/cron/parser.go:169-224 | missing fields get their defaults at their places, and too few or too many fields are errors |
| Refinement.HourAndMonth | internal/cron/parser.go:169-224 | with the options hour and month, the fields 5 and 7 become `0 0 5 * 7 *`, and one field is an error |
| Refinement.OptionalSecond | internal/cron/parser.go:169-224 | with an optional second, five fields get second 0 in front and six stay; any other number is an error, and so are two optional fields |
| Refinement.OptionalWeekday | internal/cron/parser.go:169-224 | with an optional weekday, five fields get a star at the end and six stay; any other number is an error |
| CronParser.Parse | internal/cron/parser.go:97-162 | the schedule is accepted exactly if every normalized field is, with the fields in their order |
| Refinement.NumberFieldIff | internal/cron/spec.go:20-46 | a number is a field exactly within 0 to 59, 0 to 23, 1 to 31, 1 to 12 and 0 to 6, and then denotes itself alone |
| Refinement.NamesMeanNumbers | internal/cron/spec.go:26-46 | `jan` to `dec` denote months 1 to 12 and `sun` to `sat` weekdays 0 to 6, in letters of either case |
| SchedulerParser.ParseField | internal/scheduler/parser.go:129-178 | the loop over a list accepts and collects exactly the values in range |
| SchedulerParser.AcceptedSchedulesAreValid | internal/scheduler/parser.go:29-88 | accepted schedules have steps of at least 1 |
| Text.AtoiOfItoa | internal/scheduler/parser.go:173-174 | a 64-bit number read from its decimal text is that number |
| Text.NumbersInLiterals | internal/scheduler/parser.go:173-174 | in base ten, with an optional sign and nothing else beside the digits |
| Text.TrimSpaceStrips | internal/scheduler/parser.go:149-165 | trimming takes away white space at both ends, all of it and nothing else |
| SchedulerParser.NumberInItsPlace | internal/scheduler/parser.go:29-88 | a number in any place of five fields, or as the second of six, is accepted exactly within its limits, up to 7 for weekdays, and is the one value of that place |
| SchedulerParser.StepField | internal/scheduler/parser.go:136-142 | `*/n` is accepted exactly for steps from 1 to the field's maximum |
| SchedulerParser.RangeField | internal/scheduler/parser.go:159-171 | `m-n` is accepted exactly if both are in range and in order |
| SchedulerParser.ListField | internal/scheduler/parser.go:145-156 | a list of numbers is accepted exactly if all are in range, and is those values |
| SchedulerParser.Next | internal/scheduler/parser.go:91-117 | the stepping loop returns the first match of the candidates before four years have passed |
| Refinement.FieldAgreement | internal/scheduler/parser.go:129-178 | any field text both parsers accept denotes the same set of values for both |
| Refinement.NormalizedFields | internal/cron/parser.go:169-224 | five fields get second 0 in front; six stay as they are |
| Refinement.AcceptedSchedulesAgree | internal/cron/parser.go:97-162 | the two schedules of one accepted expression agree field by field |
| Refinement.MatchesAgree | internal/scheduler/parser.go:120-126 | with a star on both day fields or on neither, the two schedules match the same times |
| Refinement.OneStarIgnoresDays | internal/cron/spec.go:179-188 | at any time, with a star on exactly one day field the stepping schedule ignores both, while the bit-set schedule demands the other |
| Refinement.SameTimesIff | internal/scheduler/parser.go:120-126 | the two schedules match the same times if and only if the star marks of the day fields are alike or the unmarked one holds every weekday, respectively every day that occurs in an allowed month |
| Refinement.SteppedIsLeast | internal/scheduler/parser.go:99-116 | the stepping search finds the least matching candidate before the limit, or there is none |
| Refinement.FirstCandidateIsNext | internal/scheduler/parser.go:92-97 | the first candidate is the least whole second or minute after the instant |
| Refinement.LimitsNest | internal/scheduler/parser.go:99-100 | the four-year limit never lies beyond the five-year limit of the other search |
| Refinement.FourYearsLater | internal/scheduler/parser.go:99-100 | the stepping search gives up at the same date and clock four years on, on 1 March where 29 February is missing |
| Refinement.FastRefinesSimple | internal/scheduler/parser.go:91-117 | for every expression both parsers accept with day fields the same in effect, the stepping search returns exactly what the field-skipping search returns, cut off at its own limit |
| Refinement.SearchesAgreeIff | internal/scheduler/parser.go:91-117 | for every expression both parsers accept, that is so at all instants if and only if the day fields are the same in effect |
| Refinement.MonthlySearchesDiffer | internal/cron/spec.go:179-188 | for `* * 1 * *`, one second before 2 January 2001 the stepping search returns that midnight and the other 1 February |
| Refinement.MondaysMean | internal/cron/spec.go:179-188 | `0 0 * * 1` matches at midnight on Mondays and at no other time |
| Refinement.NextMonday | internal/cron/spec.go:56-175 | asked on Saturday 30 December 2000 at noon, it fires on Monday 1 January 2001 at midnight |
| Refinement.EveryMinuteIsAccepted | internal/scheduler/parser.go:29-88 | five stars are an expression of the kind the result speaks of |
| CronRuns.RoundedDelay | internal/cron/constantdelay.go:14-21 | less than a second becomes one, anything else the whole second not above it |
| CronRuns.RoundDown | internal/cron/constantdelay.go:14-21 | a delay of at least a second, rounded down, is still at least a second and whole |
| CronRuns.ActivationIsLater | internal/cron/constantdelay.go:25-27 | every schedule's next activation is a whole second later than now |
| CronRuns.ActivationIsNext | internal/cron/constantdelay.go:25-27 | the next activation of a bit-set schedule is the least matching whole second after now, missing exactly if none matches through the end of the fifth year; that of a delay is the second of now plus the delay |
| CronRuns.NewIDIsFresh | internal/cron/cron.go:139-155 | in every run the id of a new entry has never been in use |
| CronRuns.RemovedStaysOut | internal/cron/cron.go:341-349 | a removed entry is gone for the rest of the run |
| CronRuns.RemovedNeverStarts | internal/cron/cron.go:184-193 | a removed entry is never started again |
| CronRuns.StoppedStaysQuiet | internal/cron/cron.go:317-330 | nothing starts between a stop and the next start |
| CronRuns.WakeEffect | internal/cron/cron.go:264-273 | a wake starts exactly the entries due, each for its Next, makes that the Prev and makes the activation after now, said without the state machine, the new Next; the others stay as they are |
| CronRuns.StartEffect | internal/cron/cron.go:224-228 | starting gives every entry its first activation after now and changes nothing else; a running runner is not started again |
| CronRuns.AddEffect | internal/cron/cron.go:139-155 | adding puts one entry under the next id, with its first activation after now exactly if the runner is running; removing takes one away, a snapshot and a stop touch none |
| CronRuns.NextStaysAhead | internal/cron/cron.go:225-273 | once an entry's Next lies after an instant it stays after it |
| CronRuns.ActivationsIncrease | internal/cron/cron.go:269-271 | two starts of one entry are for strictly increasing activations: no activation runs twice |
| CronRuns.WakeFiresIffTimerElapsed | internal/cron/cron.go:249-273 | with the timer set for the earliest Next, a wake starts something if and only if that time has come, and then leaves no entry due |
| CronRuns.ActivationIsNotLost | internal/cron/cron.go:220-301 | in every run a pending activation is started or stays pending with the timer set no later, unless its entry is removed or the runner restarted |
| CronRuns.PendingIsStarted | internal/cron/cron.go:260-273 | a pending activation has been started by the end of a wake at or after its time, unless its entry was removed or the runner restarted |
| CronRuns.StartedIsStartedAgain | internal/cron/cron.go:264-273 | a started entry gets the activation after that wake, and has been started for it by the end of any wake at or after it, unless removed or restarted |
| CronRuns.EverySecond | internal/cron/constantdelay.go:25-27 | a job of every second started at second n is next due at second n + 1 |
| Cron.RunDue | internal/cron/cron.go:264-273 | stopping at the first entry not due misses none, because the entries are sorted |
| Cron.Sort | internal/cron/cron.go:232-247 | the entries in order of Next, those without one last, none lost and none added |
| Cron.Reschedule | internal/cron/cron.go:224-228 | every entry gets its first activation after now |
| Cron.Cron.Schedule | internal/cron/cron.go:139-155 | the object state after adding is the state machine's |
| Cron.Cron.Remove | internal/cron/cron.go:341-349 | the object state after removing is the state machine's, and exactly the entry of that id is gone |
| Cron.Cron.Start | internal/cron/cron.go:196-228 | the object state after starting is the state machine's |
| Cron.Cron.Timer | internal/cron/cron.go:249-256 | the first entry in order holds the earliest Next of all |
| Cron.Cron.Wake | internal/cron/cron.go:260-273 | the object state after a wake is the state machine's, and exactly the due ids were started, each once |
| Cron.Cron.Stop | internal/cron/cron.go:317-330 | the object state after stopping is the state machine's |
| Cron.Cron.Entries | internal/cron/cron.go:333-339 | the copy holds exactly the current entries |
| Cron.Drive | internal/cron/cron.go:220-301 | any run of the runner passes through the states of the state machine, starts in each step exactly what fires in it, and has its timer set for the earliest Next |
| Sql.ParseOfPrint | internal/filter/render.go:634-662 | reading the text of a condition with SQL's precedences gives the condition back: the brackets suffice |
| Sql.ReadUnary | internal/filter/render.go:116-123 | a rendered condition is one operand, whatever follows it |
| FilterPlan.FoldPreservesMeaning | internal/filter/render.go:634-662 | folding constants keeps the three-valued value, whatever the atoms mean |
| FilterPlan.NumberedBindsBack | internal/filter/render.go:664-671 | every `$n` in a condition denotes the literal it was written for |
| FilterPlan.NumbersStartAtOne | internal/filter/render.go:664-671 | the first argument is `$1` in PostgreSQL, and `?` elsewhere |
| FilterPlan.FoldedBindsBack | internal/filter/render.go:634-671 | that stays so after folding, because dropped arguments keep their places |
| FilterPlan.KeptParams | internal/filter/render.go:634-662 | folding can only lose arguments, and loses none exactly when the tree is clean |
| FilterPlan.ConstantFreeIsClean | internal/filter/render.go:80-84 | a tree without constants is clean |
| FilterPlan.PositionalIffClean | internal/filter/render.go:634-671 | there are as many `?` as arguments if and only if no folded part holds an argument, and then the k-th `?` takes the k-th argument |
| FilterRender.Renderer.AddArg | internal/filter/render.go:664-671 | one more argument, and the placeholder that names it |
| FilterRender.Renderer.Render | internal/filter/render.go:32-59 | the text and arguments are those of the folded condition: `1 = 0` if it can never hold, no text if it always does |
| FilterRender.Renderer.RenderCondition | internal/filter/render.go:61-124 | the recursive rendering, which numbers as it goes, gives the text of the folded numbering and all arguments, also the dropped ones |
| FilterRender.Renderer.RenderComparison | internal/filter/render.go:151-175 | the text and arguments of a comparison, or an error exactly where the schema does not allow it |
| FilterRender.Renderer.RenderScalarComparison | internal/filter/render.go:209-248 | likewise for columns and JSON values |
| FilterRender.Renderer.RenderJsonBoolComparison | internal/filter/render.go:262-315 | likewise for flags inside the JSON payload, per dialect |
| FilterRender.Renderer.RenderTagInList | internal/filter/render.go:356-403 | the loop over tags writes, for each, the exact and the hierarchical pattern, with its arguments in text order |
| FilterRender.Renderer.RenderScalarIn | internal/filter/render.go:438-468 | the loop over an IN list writes one placeholder per literal, in order |
| FilterRender.Renderer.RenderElementIn | internal/filter/render.go:405-436 | membership of one value in a list column |
| FilterRender.Renderer.RenderContains | internal/filter/render.go:470-490 | the dialect's own search operator over the column and the pattern |
| FilterRender.Renderer.RenderListComprehension | internal/filter/render.go:507-588 | the null-checked text of `exists` over tags, for each test and dialect |
| FilterRender.NullCheckedText | internal/filter/render.go:605-618 | the null-check wrapper is the conjunction of the condition with presence and non-emptiness of the list |
| FilterMeaning.ComprehensionIsTwoValued | internal/filter/render.go:507-618 | `tags.exists(...)` is never NULL, in any dialect, even when the list is NULL or empty |
| FilterMeaning.ComprehensionsPartitionRows | internal/filter/render.go:109-124 | under any nesting of AND, OR and NOT such a filter and its negation partition all rows |
| FilterMeaning.LeafExact | internal/filter/render.go:126-530 | where the fields a leaf compares are there and its literals have no wildcards where LIKE meets them, its SQL has the Boolean value of the leaf, in every dialect; flags on their own, `exists` and `size` need no field |
| FilterMeaning.JsonBoolExact | internal/filter/render.go:262-315 | comparing a flag is exact if and only if the payload has it or SQLite reads it as false; otherwise it is NULL |
| FilterMeaning.ElementInExactIff | internal/filter/render.go:405-436 | membership of a text in a list is exact if and only if the payload has the list; otherwise it is NULL |
| FilterMeaning.TagInExactIff | internal/filter/render.go:356-403 | likewise for `tag in [...]` |
| FilterLeaves.ContainsSearches | internal/filter/render.go:470-490 | the pattern is the needle with anything around it, under the search operator of each dialect |
| FilterMeaning.ContainsFindsFoldedIffPlain | internal/filter/render.go:470-490 | the search finds the folded needle, in every column's text, if and only if no character of the needle is a wildcard |
| FilterMeaning.ContainsExactIff | internal/filter/render.go:470-490 | under a folding of characters one by one, the search is containment for every content if and only if the needle has no `%`, no `_`, outside SQLite no backslash, and no cased character |
| FilterMeaning.ContainsMatchesWildcard | internal/filter/render.go:470-490 | under any folding, a needle with wildcards selects a content that does not hold it |
| FilterMeaning.ContainsIgnoresCase | internal/filter/render.go:470-490 | the needle "a" selects the content "A" |
| FilterMeaning.SparseRowIsCovered | proto/store/memo.proto:15-20 | a row without flags and lists is among those the exactness results speak of |
| FilterMeaning.TranslationSettles | internal/filter/render.go:61-124 | where flags and lists are missing, the SQL still selects exactly the rows that satisfy the condition, as long as no omitted one, read as false or empty, makes its comparison true, or false under a negation |
| Folding.CaselessSearchIsExact | store/db/sqlite/functions.go:14-34 | under any folding a needle without cased characters is found in folded text exactly where it is in the text |
| Folding.ExactIffCaseless | store/db/sqlite/functions.go:14-34 | under a folding of characters one by one, that is so for every text if and only if the needle has no cased character |
| Folding.FoldedSearchIffPlain | internal/filter/render.go:478-481 | the LIKE of a folded pattern is a search for the folded needle, in every text, if and only if no character of the needle is a wildcard |
| Folding.SearchExactIff | internal/filter/render.go:470-490 | under a folding of characters one by one, that search is containment in every text if and only if the needle has neither wildcards nor cased characters |
| Folding.WildcardFindsOther | internal/filter/render.go:470-490 | under any folding a needle with wildcards finds a text that does not contain it |
| FilterMeaning.TagInListExact | internal/filter/render.go:356-403 | `tag in [...]` selects rows with a tag equal to or below one of those listed |
| FilterMeaning.UnderTagIff | internal/filter/render.go:356-403 | below a tag lies what continues it with a slash: `work/todo` below `work`, and not `workshop` |
| FilterLeaves.FractionIsCutOff | internal/filter/render.go:716-736 | a fraction is cut off towards zero |
| FilterMeaning.TranslationIsExact | internal/filter/render.go:61-124 | where the fields the condition compares are there and literals have no wildcards where LIKE meets them, its Kleene value is its Boolean meaning, in every dialect |
| TagText.TextMatchIsExact | internal/filter/render.go:533-601 | over tag characters, a needle found in the JSON text of a list means membership, prefix, suffix or part of some tag, as its quotes say |
| TagText.LikeIsExact | internal/filter/render.go:592-601 | the LIKE patterns say the same, for needles of tag characters without underscore and for needles that no tag can hold because of a foreign character |
| TagText.ExactIffNoWildcard | internal/markdown/parser/tag.go:33-71 | over tag characters and `%` the pattern is exact for every list of tags if and only if the needle has neither `_` nor `%` |
| TagText.WildcardMatchesOther | internal/filter/render.go:533-588 | with a wildcard it also matches a tag that the needle does not name |
| FilterWhere.AppendConditions | internal/filter/helpers.go:9-25 | the loop appends the bracketed text of every filter that is not trivial, and all arguments; an error of any is an error |
| FilterWhere.WhereTextMeansConjunction | internal/filter/helpers.go:20-22 | the joined text, with the driver's own conditions behind the filters', reads as the conjunction of exactly these |
| FilterWhere.PartsAreWellFormed | internal/filter/render.go:32-59 | filters without empty lists add conditions whose text can be read back |
| FilterWhere.NumberedWhere | internal/filter/helpers.go:9-25 | with numbered placeholders, however many filters, folded constants and skipped filters there are, the bound clause is the conjunction of the filters |
| FilterWhere.PositionalWhere | internal/filter/helpers.go:9-25 | with positional ones, placeholders and arguments are equally many if and only if every filter is clean, and then the filled clause is the conjunction |
| FilterWhere.SwallowedArgumentStays | internal/filter/render.go:634-647 | a filter that asks for x, or else for y and false, adds one placeholder and two arguments |
| FilterWhere.MoreFiltersNarrow | internal/filter/helpers.go:9-25 | a further filter never selects more |
| Cel.NumericFoldsModulo | internal/filter/parser.go:359-409 | an expression of integers folds if and only if it has a value, with literal sums, differences and products, and then to that value reduced to 64-bit two's complement, so to the exact value if and only if it fits |
| CelMeaning.LoopIsExists | internal/filter/parser.go:416-477 | the accumulator loop of an accepted comprehension computes whether some tag satisfies its test |
| CelMeaning.OperatorIsCel | internal/filter/parser.go:285-302 | on integers, texts and booleans each of the six names compares as the language says: `_<_` is less, and so on |
| CelMeaning.LessIsDictionaryOrder | internal/filter/parser.go:285-302 | texts compare by their first difference, a proper prefix coming first |
| CelMeaning.BuildIsExact | internal/filter/parser.go:10-227 | where the compared columns are there, an accepted expression and the condition built from it have the same value, where the expression language has its own reading of every function name; flags and lists may be missing, and `contains` is case-sensitive here |
| CelMeaning.CompiledFilterIsExact | internal/filter/render.go:32-59 | for every accepted expression, dialect and row that has the fields it compares, with no wildcard or cased character in a needle of `contains`, the folded SQL is true exactly if the expression is, and never NULL |
| CelMeaning.CompiledFilterSelects | internal/filter/render.go:32-59 | likewise it selects exactly where the expression is true on rows without flags and lists that are compared, as long as what they are read as does not make their comparison true, or false under a negation |
| CelMeaning.ContainsFilterMatchesWildcard | internal/filter/render.go:470-490 | a needle with wildcards, such as "@#$%" on the content "@#$", is not contained as an expression and found in SQL |
| CelMeaning.MissingListIsNotSelected | internal/filter/render.go:405-436 | `!("x" in tags)` is true of an untagged memo, and NULL in SQL |
| CelMeaning.ContainsFilterIgnoresCase | internal/filter/render.go:470-490 | `contains("a")` is false of "A" as an expression and true in SQL |
| CelMeaning.MissingFlagIsNotSelected | internal/filter/render.go:262-315 | `flag == false` is true of a memo whose payload omits the flag, and NULL in SQL |
| Selection.CreatedFilters | internal/filter/parser.go:285-302 | on memos with a creation time, `created_ts < n` and the other five are true in SQL exactly where the numbers compare so, in every dialect |
| FilterIr.MemoColumnsInLiterals | internal/filter/schema.go:104-186 | the column fields of memo filters with their kinds, types and allowed comparisons |
| FilterIr.MemoPayloadInLiterals | internal/filter/schema.go:187-243 | likewise the lists and flags of the payload, and the alias `tag` of `tags` |
| Selection.AttachmentFilters | internal/filter/schema.go:244-266 | `has_attachment` holds of memos with an attachment, and `has_image`, `has_audio` and `has_video` of those with one whose type starts with `image/`, `audio/` and `video/` |
| Selection.ExistsFilters | internal/filter/parser.go:416-616 | `tags.exists(t, ...)` with each of the four tests, as the macro expands it, is accepted and true of the memos some tag of which satisfies the test |
| Selection.SizeFilter | internal/filter/render.go:177-207 | `size(tags) > n` is accepted and true in SQL of the memos with more tags than n |
| Selection.PinnedFilter | internal/filter/render.go:126-149 | `pinned` is accepted and true in SQL of the pinned memos |
| MemoQuery.BuildQuery | store/db/sqlite/memo.go:51-112 | the clauses and arguments that the driver collects, filters first and then its own criteria in order |
| MemoQuery.OwnAtomsMean | store/db/sqlite/memo.go:64-112 | the driver's own conditions hold of exactly the memos that meet the criteria |
| MemoQuery.QueryIsExact | store/db/postgres/memo.go:51-100 | read back and bound to all arguments, the query selects exactly the memos that meet the criteria and of which all filters are true: with numbered placeholders always, with positional ones for clean filters |
| MemoQuery.CountsMatchIffClean | store/db/mysql/memo.go:61-116 | the query has as many placeholders as arguments if and only if its filters are clean |
| MemoQuery.SwallowedArgumentMisleads | store/db/sqlite/memo.go:61-103 | a filter that is not clean makes a listing of normal memos select archived ones |
| Selection.PostgresClauseIsExact | internal/filter/helpers.go:9-25 | for all filters, whatever arguments stand around theirs, the clause that is read back and bound selects exactly the rows on which all filters hold |
| Selection.ListingIsExact | store/db/sqlite/memo.go:51-112 | end to end: a listing selects exactly the memos that meet its criteria and of which every filter expression is true, in SQLite and MySQL for clean filters |
| Selection.CleanIffCountsMatch | store/db/sqlite/memo.go:61-103 | clean means as many placeholders as arguments |
| Selection.OrdinaryMemoIsListed | store/db/sqlite/memo.go:16-112 | a valid memo with a content and without tags and flags is listed under a filter on its content, so the hypotheses hold together |
| Access.MemoSchemaHasAccessFields | internal/filter/schema.go:103-295 | the memo schema has the two columns that the restriction names |
| Access.AccessInStoredText | server/router/mcp/access.go:17-35 | by the stored texts, a memo may be read by its owner, and unless it is ARCHIVED by everyone if PUBLIC and by users if PROTECTED |
| Access.ApplyVisibilityFilter | server/router/mcp/access.go:49-64 | afterwards the query selects, of what it selected before, exactly the memos the user may read, if it asks for the row status it is told; the criteria are the earlier ones with the restriction |
| Access.AccessExprBuilds | server/router/mcp/access.go:61-63 | the filter text of a user compiles to the condition of owner or visibility |
| Access.RestrictionIsAccessCheck | server/router/mcp/access.go:17-64 | for a given row status the restricted query, bound as the driver binds it, selects exactly the memos selected before that pass the access check |
| Access.RestrictedIsSound | server/router/mcp/access.go:61-63 | the restriction leaves clean filters clean |
| Access.UnfilteredStatusIsExactIff | server/router/mcp/access.go:49-52 | without a row status it does so if and only if the memo is not archived, or is the user's own, or is hidden from the user anyway |
| Access.ArchivedMemoStaysListed | server/router/mcp/access.go:49-60 | another user's archived public memo stays in a listing without a row status |
| Access.FurtherFiltersStayInside | server/router/mcp/tools_memo.go:291-294 | filters added afterwards never make the bound query select a memo the user may not read; in SQLite and MySQL they have to be clean too |
| Access.SwallowedArgumentPassesRestriction | server/router/mcp/tools_memo.go:291-294 | with a filter that is not clean, another user's archived public memo is selected by a restricted listing of normal memos |
| Access.OrdinaryArchivedMemo | server/router/mcp/access.go:17-64 | a memo on which both shortfalls of restricted listings happen |
| MemoTree.TreeIsReachability | store/user_delete.go:183-196 | the least set closed under comments is the set of memos from which comments lead up to one of the user's, and no other set is least |
| MemoTree.InTreeIff | store/user_delete.go:183-196 | a memo goes if and only if it is the user's or has a relation of kind "COMMENT" to a memo that goes |
| MemoTree.TreeIsLeast | store/user_delete.go:183-196 | every set with the user's memos that holds the memos with a "COMMENT" relation to its own holds all that go |
| MemoTree.TreeIsUnique | store/user_delete.go:178-181 | the two searches can therefore only find the same set |
| MemoTree.Batches | store/user_delete.go:606-623 | the batches in order make up the values; all are full but perhaps the last; a size of zero or less means one batch |
| MemoTree.Transaction.ListMemoTreeIterative | store/user_delete.go:217-265 | the frontier search ends on every relation graph, cycles included, with exactly the tree, each memo once with its uid |
| MemoTree.Transaction.ListMemoTreeRecursive | store/user_delete.go:183-214 | the recursive query yields exactly the tree, each memo once |
| UserDelete.ListAttachments | store/user_delete.go:289-359 | exactly the user's attachments and those on the tree, each once; fails on one that does not decode |
| UserDelete.ListSettingKeys | store/user_delete.go:361-382 | the keys named by the user's setting rows |
| UserDelete.ListInboxIDs | store/user_delete.go:384-464 | exactly the notifications from or to the user or touching the tree; fails on one that does not decode |
| UserDelete.CollectTargets | store/user_delete.go:113-142 | exactly the targets, unless a row that has to be decoded cannot be |
| UserDelete.BlockedIff | store/user_delete.go:289-464 | what cannot be decoded and stops a deletion is an attachment of the user or on the tree, or, unless the tree is empty, a notification between others |
| UserDelete.DeleteInBatches | store/user_delete.go:497-623 | statements that add up, one per batch, delete what one statement over all keys would |
| UserDelete.DeleteMemoRelations | store/user_delete.go:550-561 | the batches together delete exactly the relations from or to the memos |
| UserDelete.DeleteReactionsByContentIDs | store/user_delete.go:497-505 | the batches together delete exactly the reactions on the memos |
| UserDelete.DeleteTargets | store/user_delete.go:144-176 | the statements together leave of every table what is to be left |
| UserDelete.DeleteUserRows | store/user_delete.go:53-82 | a commit leaves exactly what is to be left, any failure leaves everything; without database errors only undecodable rows make it fail |
| UserDelete.StatementsLeave | store/user_delete.go:144-176 | the nine statements in their order amount to one declarative deletion |
| UserDelete.NothingDangles | store/user_delete.go:144-176 | no surviving row is the user's or refers to a deleted memo, no surviving memo had a "COMMENT" relation to a deleted one, and no surviving reaction is on "memos/" and the uid of one |
| UserDelete.ReactionStaysIff | store/user_delete.go:640-646 | a reaction stays if and only if it is another user's and not on "memos/" followed by the uid of a memo of the tree |
| UserDelete.CommentGoesReferenceStays | store/user_delete.go:183-196 | with user 1 go memo 1 and the comment 2 on it with their reactions; memo 3, which only refers to it, stays with its own |
| UserDelete.NotificationsCleanIff | store/user_delete.go:427-495 | no surviving notification names a deleted memo if and only if those that did carry a payload of their own type |
| UserDelete.MistypedNotificationSurvives | store/user_delete.go:466-487 | a notification of one type with a payload of the other survives the memo it names |
| UserDelete.ReferencesAreKept | store/user_delete.go:144-176 | if every reference led to a row before, every one does after |
| UserDelete.SurvivingMemosKeepTheirRows | store/user_delete.go:497-571 | a memo outside the tree keeps its row and others' reactions, attachments, shares and relations |
| UserDelete.OthersAreUntouched | store/user_delete.go:497-576 | other users, their settings, attachments, shares and unrelated notifications stay, and no row is new or changed |
| UserDelete.TreeAfterDelete | store/user_delete.go:178-196 | after one deletion another user's tree is what is left of it |
| UserDelete.DeletionsCommute | store/user_delete.go:53-90 | two deletions leave the same in either order, and a second deletion of one user changes nothing |
| Cache.Cache.SetWithTTL | store/cache/cache.go:98-120 | the item is stored; the count stays exact and within the bound, beyond which a fifth of it, at least one, is evicted, all expiring no later than what stays; evictions are reported |
| Cache.Cache.Get | store/cache/cache.go:123-147 | a value is returned exactly for a stored unexpired key, and is that of the last Set of it; an expired entry is dropped and reported |
| Cache.Cache.Delete | store/cache/cache.go:150-160 | the key is gone, the count exact, and what was stored is reported once |
| Cache.Cache.Clear | store/cache/cache.go:163-179 | everything is gone, and every entry is reported once |
| Cache.Cache.Cleanup | store/cache/cache.go:218-250 | exactly the expired entries are dropped and reported, and the count stays exact |
| Cache.Cache.OldestCandidates | store/cache/cache.go:271-295 | one pass, in any order, picks that many entries none of which expires after one that stays |
| Cache.Cache.CleanupOldest | store/cache/cache.go:253-313 | over the bound exactly max(MaxItems/5, 1) entries go, those that expire first, each reported once |
| Cache.Cache.Size | store/cache/cache.go:182-184 | the counter is the number of entries |
| Cache.EvictionCountBound | store/cache/cache.go:254-255 | at least one entry is evicted and otherwise a fifth of the bound, rounded down, so never more than the bound |
| Cache.ReplaceNewest | store/cache/cache.go:282-293 | replacing the candidate that expires last keeps the choice right for all entries seen |
| Cache.LastSetIsLast | store/cache/cache.go:98-180 | what the history says of a key is a Set after which nothing set, deleted or cleared it |
| Driver.Database.ListUsers | store/db/sqlite/user.go:88-202 | exactly the matching users, each once, as many as the limit admits |
| Driver.FoundIff | store/db/sqlite/user.go:96-139 | a user matches who agrees in id, row status, username, role, e-mail and nickname, as far as given, is in the lists given, and meets the search |
| Driver.SearchFindsPart | store/db/sqlite/user.go:140-142 | a search text without wildcards is looked for in the lower-case username and nickname |
| Driver.ListingCount | store/db/sqlite/user.go:151-202 | without a limit every matching user is listed, and with one as many as it says if there are as many |
| Driver.Database.UpdateUser | store/db/sqlite/user.go:31-86 | each of the nine fields is the given value if one is given and the old one otherwise, on the row and on the returned user; id and creation time stay; nothing given, no such user or a row the table refuses is an error |
| Driver.ChangesSomethingIff | store/db/sqlite/user.go:31-60 | an update is valid exactly if at least one of the nine fields is given |
| Driver.AcceptableIff | store/migration/sqlite/LATEST.sql:10-22 | a row is accepted exactly if its status is NORMAL or ARCHIVED and usernames are distinct with it |
| Driver.Database.ListUserSettings | store/db/sqlite/user_setting.go:28-70 | exactly the rows of the user and key asked for, the unspecified key asking for all |
| Driver.AsksForIff | store/db/sqlite/user_setting.go:28-40 | a row is asked for by its user and by the key its name denotes, as far as these are given |
| Tables.KeyNamedIff | store/user_setting.go:419-440 | each key is stored under one name, such as "REFRESH_TOKENS", and only that name denotes it |
| Store.CacheKeysAreInjective | store/cache.go:7-9 | no two users and no two settings share a cache key |
| Store.Store.CreateUser | store/user.go:88-96 | a user is created if and only if the database can be written and the name is free; the new row and nothing else is added and cached, and both caches agree with the database |
| Store.Store.CreateUserIfNoUsers | store/user.go:101-120 | a user is created if and only if there is none; it is then the only one |
| Store.Store.UpdateUser | store/user.go:122-130 | row, returned user and cached entry change together, each of the nine fields to the given value if one is given and otherwise not at all |
| Store.Store.ListUsers | store/user.go:132-142 | the listing is the database's, and an unbounded cache then holds all of it |
| Store.Store.GetUser | store/user.go:144-165 | a query by id gives what an uncached lookup would, if and only if no live cached user fails one of its other criteria |
| Store.Store.DeleteUser | store/user.go:167-174 | the row goes and the cache forgets it |
| Store.Store.UpsertUserSetting | store/user_setting.go:42-61 | the row is written and the decoded value cached; an unsupported key or failing write changes nothing |
| Store.Store.ListUserSettings | store/user_setting.go:63-82 | one setting for each row asked for with a known key; an error if one does not decode |
| Store.Store.GetUserSetting | store/user_setting.go:84-108 | for a user and a key, cached or not, what the database holds, decoded; also served while the database is out of reach |
| Store.Store.DeleteUserSettings | store/user_setting.go:110-125 | exactly the rows asked for go, and the cache forgets them; this happens if and only if they can be listed and the database written |
| Store.Store.DeleteUserCompletely | store/user_delete.go:53-90 | both caches agree with what the deletion leaves; the returned attachments are exactly those deleted; without database errors only undecodable rows make it fail |
| Store.Store.GetUserRefreshTokens | store/user_setting.go:148-160 | the tokens the database holds |
| Store.Store.GetUserAccessTokens | store/user_setting.go:224-236 | the tokens the database holds |
| Store.Store.GetUserWebhooks | store/user_setting.go:312-326 | the webhooks the database holds |
| Store.Store.AddUserRefreshToken | store/user_setting.go:163-181 | the stored list gets the token at its end, and no other row changes; this happens if and only if the list is answered, encodes and can be written |
| Store.Store.RemoveUserRefreshToken | store/user_setting.go:184-207 | the stored list loses the tokens of that id, and no other row changes; this happens if and only if the list is answered, encodes and can be written |
| Store.Store.AddUserPersonalAccessToken | store/user_setting.go:239-257 | the stored list gets the token at its end, and no other row changes; this happens if and only if the list is answered, encodes and can be written |
| Store.Store.RemoveUserPersonalAccessToken | store/user_setting.go:260-283 | the stored list loses the tokens of that id, and no other row changes; this happens if and only if the list is answered, encodes and can be written |
| Store.Store.UpdatePATLastUsed | store/user_setting.go:286-309 | the first token of that id is stamped; after a failed write the caches agree with the database if the stamp changes nothing or the list was neither cached nor readable, and for a cached list or an unbounded cache only then; otherwise they agree but for that list; it succeeds if and only if the list is answered, encodes and can be written |
| Store.Store.AddUserWebhook | store/user_setting.go:329-363 | the webhooks of that id are replaced, or the webhook is appended; this happens if and only if the list is answered, encodes and can be written |
| Store.Store.RemoveUserWebhook | store/user_setting.go:366-390 | the stored list loses the webhooks of that id; this happens if and only if the list is answered, encodes and can be written |
| Store.Store.UpdateUserWebhook | store/user_setting.go:393-417 | the first webhook of that id is replaced, with the same consequences of a failed write |
| Store.Store.WriteInPlace | store/user_setting.go:292-308 | the condition under which a list changed before its write still agrees when the write fails |
| Store.StoredIsFound | store/user_setting.go:419-508 | a stored setting is found again and no other is touched |
| SettingValues.RemovingKeepsOthers | store/user_setting.go:266-271 | removing tokens or webhooks of an id keeps exactly the others |
| SettingValues.RemovingLooksAtIDs | store/user_setting.go:184-390 | what is removed are the refresh tokens and access tokens of that token id and the webhooks of that id |
| SettingValues.MarkingStamps | store/user_setting.go:292-300 | the first token of that id gets the time of use, with everything else as it was |
| SettingValues.RemovingUndoesAdding | store/user_setting.go:239-283 | removing an entry just added gives the list back |
| SettingValues.CarriedIsOfItsKey | store/user_setting.go:462-508 | a value of its own key is stored as it is, and any other as an empty one of the key |
| SettingValues.AddingStores | store/user_setting.go:335-350 | adding a webhook stores it under its id, at the end unless the id is there, leaves other ids alone and in their places, and keeps ids distinct |
| SettingValues.ChangingIsAdding | store/user_setting.go:399-404 | with distinct ids, changing a webhook that is there is adding it |
| StoreRuns.Perform | store/user_setting.go:292-308 | after any call the caches agree with the database, except perhaps for the one list that it changed in place and could not write |
| StoreRuns.Run | store/user_setting.go:42-125 | in every run of calls, with the database coming and going, both caches agree throughout, or the run ends at such a call and they agree but for its list |
| StoreRuns.Restore | store/user_setting.go:42-61 | the next successful write of that list makes them agree again |
| StoreRuns.FailedStampIsCached | store/user_setting.go:292-308 | with a failing write, a stamp that is new is in the cache and not in the database, whether the list was cached before or is read in for it |
| StoreRuns.FailedChangeIsCached | store/user_setting.go:393-417 | likewise for a changed webhook |
| StoreRuns.NormalUserAmongArchived | store/user.go:144-165 | a cached normal user is returned to a query for an archived one |

## Left out

Time and schedules:

- Time zones, daylight saving and the repair of missing midnights (internal/cron/spec.go:123-131): time has a fixed offset of whole minutes. The zero time is modelled as no result.
- CronParser.Parse: does not model the empty text, `TZ=` prefixes, descriptors such as `@daily` and the reading of `@every` durations, which would add only easy members; the delay itself is modelled. The whitespace-separated fields of an expression are the input of both parsers.
- Lower-casing of names is ASCII, and white space that of Latin-1.
- Job wrappers, logging and true interleaving: the runner's channels are steps of one state machine.

Filters:

- The CEL parser and type checker, and the parsing of filter text: expressions are syntax trees. The fixed filter text of the access check is its tree.
- SQL engines and column expressions per dialect (`qualifyColumn`, `jsonExtractExpr` and the like): an atom names its field, and a small denotation says what it means. LIKE on lists is case-sensitive, as in PostgreSQL; SQLite agrees up to ASCII case.
- What Unicode, ILIKE and MySQL's collations fold: a folding of characters is a parameter, the same for all columns of a place. One that turns a character into several is covered in one direction (Folding.CaselessSearchIsExact); the other, that a cased character always makes some search wrong, is proved for foldings one by one.
- Empty IN lists render `()`, which no engine reads; results that read text back exclude them.
- Equality, order and IN on text columns compare code points; MySQL's default collation folds them as it does LIKE.
- Selection.ListingIsExact: does not model floating-point literals, on which the expression language and SQL differ, nor NULL columns. Of rows without compared flags or lists it excludes those on which one of the comparisons goes wrong (FilterMeaning.JsonBoolExact, FilterMeaning.ElementInExactIff and FilterMeaning.TagInExactIff say why). Its needles in `contains` have no wildcards and no cased characters (FilterMeaning.ContainsExactIff). Where they meet LIKE on lists they are not empty and either over tag characters without underscore (TagText.ExactIffNoWildcard says why) or hold a character that occurs neither in tags nor in the text of a list; needles that mix in brackets, commas, spaces, quotes or backslashes are not covered there.
- Selection.PostgresClauseIsExact: the same exclusions.
- CelMeaning.CompiledFilterIsExact: the same exclusions.
- MemoQuery.QueryIsExact: does not model the joins, order, limit and offset of a listing; a memo that comments on several memos stands for one joined row at a time. The parent is one column, so that a comment on a memo that is gone, of which PostgreSQL sees the relation and the others the missing memo, is not told apart.
- MemoQuery.CountsMatchIffClean: drivers that refuse a query because arguments are left over, or because a numbered one is never used, are not modelled; a surplus is ignored.

Deleting a user:

- The text of the statements, their placeholders and the coding of rows: a statement is its effect on the tables. The three lists of ids are comprehensions instead of loops.
- MemoTree.Transaction.ListMemoTreeRecursive: the database's evaluation of a recursive query is written out as a queue of rows, because engines are not modelled.
- `user_identity` rows, which this code does not touch; removal of files and objects after the commit; isolation between concurrent transactions.

Caches and store:

- True interleaving of cache methods: each is one atomic step. With concurrent Sets of one new key the counter can drift.
- Size estimates, the background loop's timer, and cached values of a foreign type.
- Cache.Cache.SetWithTTL: does not promise that the new entry itself survives an eviction, because one that expires first need not.
- Driver.Database.ListUsers: does not model the order of rows, so without an id GetUser returns some matching user.
- Store.Store.UpsertUserSetting: JSON coding is any codec that reads back what it wrote; a codec that did not could leave the old entry cached.
- Store.Store.UpdatePATLastUsed: tokens are values inside a setting object, and stamping one replaces the object's list; the sharing of single tokens with earlier callers is not captured.
- `GetUserByPATHash`, `GetUserRefreshTokenByID` and the instance settings cache: they would add only easy members.

Everything else in the repository (HTTP, authentication, email, webhooks, Markdown, migrations, the front end) is not part of this model.
