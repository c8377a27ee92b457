# cron — a Dafny model of a once-per-second task scheduler

The `cron` package keeps a registry of tasks. Each task is an action plus zero or
more time-pattern rules. Once per whole second it compares the current time with
every task's rules and starts the actions whose rules match.

This project models the package's sequential logic:

- **Rule grammar** (`rule_grammar.dfy`, module `RuleGrammar`). `Add` checks each rule
  string against a regular expression. Here that expression is the character-level
  predicate `ValidRule`. A rule is `ss[ mm[ hh[ DD[ MM[ YYYY]]]]]` with seconds and
  minutes 00–59, hours 00–23, day 01–31, month 01–12 and any four-digit year. The
  fields are separated by one whitespace character of the class `\s` (tab, newline,
  form feed, carriage return or space). Two further readings are proved equivalent
  to it:
  - `Layout`, where field k sits at offset 3k;
  - for rules written with plain spaces, the joins of well-formed field lists.
- **Field splitting** (`strings.dfy`, module `Strings`). `Split` models Go's
  `strings.Split(s, " ")`, which `Add` applies to each accepted rule. `Join` is its
  inverse, and the round trip is proved in both directions.
- **Matching and selection** (`matcher.dfy`, module `Matcher`). These are the nested
  loops of `exec`, kept as methods with their early exits. `CheckRule` compares one
  rule field by field. `AnyRuleMatches` tries a task's rules in order. `Due` is the
  set of task ids that fire on a tick. The module also proves lemmas over runs of
  several ticks.
- **Registry** (`scheduler.dfy`, module `Scheduler`). Class `TaskRegistry` holds the
  `tasks` map and has the methods `Add`, `Clear` and `Exec`. `Exec` returns, in
  order, the ids it dispatched during one tick.
- **Alignment to the second** (`clock.dfy`, module `Clock`). `WaitDuration` is the
  sleep that `wait` computes, done in 64-bit wrapping arithmetic.
- **Examples** (`grammar_examples.dfy`, module `GrammarExamples`). These are the rules
  documented with `Add`, rules that the grammar refuses, and a tab-separated rule
  that the grammar accepts but that never matches.

The package documents a rule as `"ss mm hh DD MM YYYY"` (cron/cron.go:29). Two
behaviours of the code are worth stating on their own:

- **Whitespace separators.** A rule whose fields are separated by a tab, newline, form
  feed or carriage return passes the pattern at cron/cron.go:47. But cron/cron.go:57
  splits only on `" "`, so such a rule is stored as one field and never matches. For
  example, `"05\t30"` is stored as the single five-character field `"05\t30"`
  (`GrammarExamples.TabSeparatedRuleIsOneField`,
  `GrammarExamples.TabSeparatedRuleNeverMatches`).
- **Id reuse.** The id of a new task is `len(tasks)`. After a `Clear`, the next `Add`
  can therefore take the id of a live task and overwrite it
  (`Scheduler.NextIdCollidesAfterClear`, `Scheduler.IdReuseScenario`).

## Model

| member | source | states |
|---|---|---|
| `RuleGrammar.FieldOkMeansInRange` | cron/cron.go:47 | each two-digit field is accepted exactly when it is two digits whose value is within its range (second and minute 0–59, hour 0–23, day 1–31, month 1–12); the year is accepted exactly when it is four digits |
| `RuleGrammar.ValidRuleIffLayout` | cron/cron.go:47 | the nested, prefix-only grammar accepts exactly the strings of length 2, 5, 8, 11, 14 or 19 that have a whitespace character before each field and each field in range at offset 3k |
| `RuleGrammar.JoinedFieldsAreValid` | cron/cron.go:47-57 | one to six in-range fields joined by single spaces form a valid, space-separated rule, and splitting that rule on " " gives back the same fields |
| `RuleGrammar.ValidRuleSplits` | cron/cron.go:47-57 | a valid rule whose separators are all plain spaces splits on " " into one to six in-range fields, and joining those fields gives back the rule |
| `RuleGrammar.ValidRuleFieldCount` | cron/cron.go:47-57 | whatever its separators, a valid rule splits on " " into 1 to 6 fields, so indexing the six time fields with a stored rule never runs past their end |
| `Strings.Split` | cron/cron.go:57 | splitting always yields at least one piece |
| `Strings.SplitCount` | cron/cron.go:57 | splitting yields exactly one piece more than the string has spaces |
| `Strings.JoinSplit` | cron/cron.go:57 | joining the pieces of a split with single spaces gives back the original string |
| `Strings.SplitJoin` | cron/cron.go:57 | splitting space-free fields joined by single spaces gives back the fields |
| `GrammarExamples.EveryMinuteRule` | cron/cron.go:33 | the documented rule "00" (every minute) is accepted |
| `GrammarExamples.DailyRule` | cron/cron.go:35 | the documented rule "00 30 08" (every day at 08:30) is accepted |
| `GrammarExamples.InstantRule` | cron/cron.go:37 | the documented rule "05 30 08 14 09 2021" (a single instant) is accepted |
| `GrammarExamples.SecondOutOfRange` | cron/cron.go:47 | second 60 is refused |
| `GrammarExamples.HourOutOfRange` | cron/cron.go:47 | hour 24 is refused |
| `GrammarExamples.DayOutOfRange` | cron/cron.go:47 | day 32 is refused |
| `GrammarExamples.MonthOutOfRange` | cron/cron.go:47 | month 13 is refused |
| `GrammarExamples.GapRefused` | cron/cron.go:47 | two separators in a row (a field left out) are refused |
| `GrammarExamples.SeventhFieldRefused` | cron/cron.go:47 | nothing may follow the year |
| `GrammarExamples.TabSeparatedRuleIsOneField` | cron/cron.go:47-57 | "05\t30" passes the grammar but splits on " " into the single field "05\t30" |
| `GrammarExamples.TabSeparatedRuleNeverMatches` | cron/cron.go:57 | the stored form of "05\t30" matches no tick |
| `Matcher.CheckRule` | cron/cron.go:95-101 | the field loop reports a match exactly when every field of the rule equals the time field at the same position |
| `Matcher.AnyRuleMatches` | cron/cron.go:94-106 | the rule loop, which stops at the first match, reports a match exactly when some rule of the task matches |
| `Matcher.RuleMatchesIsPrefix` | cron/cron.go:96-101 | a rule matches exactly when it is a prefix of the six time fields |
| `Matcher.WildcardFields` | cron/cron.go:96-101 | time fields past the end of a rule do not affect whether it matches |
| `Matcher.FullRuleMatchesOnlyItsInstant` | cron/cron.go:96-101 | a six-field rule matches exactly the tick whose fields equal it |
| `Matcher.SecondsOnlyRule` | cron/cron.go:96-101 | the rule "05" matches exactly the ticks whose second field is "05", whatever the other fields |
| `Matcher.UnconditionalTaskAlwaysDue` | cron/cron.go:90-92 | a registered task without rules is selected on every tick |
| `Matcher.OneMatchingRuleSuffices` | cron/cron.go:102-105 | a registered task is selected as soon as one of its rules matches |
| `Matcher.DueAfterRemoval` | cron/cron.go:66-71 | after ids are removed, each tick selects exactly what it selected before, minus those ids |
| `Matcher.DueAfterStore` | cron/cron.go:60-61 | storing a task under an id changes only whether that id is selected, and it is selected exactly when the new task is due |
| `Matcher.UnconditionalFiresEveryTick` | cron/cron.go:74-92 | over any run of ticks, a task without rules fires once per tick |
| `Matcher.InstantRuleFiresOnlyAtItsInstant` | cron/cron.go:87-105 | over any run of ticks, a task whose only rule has six fields fires exactly as many times as that instant occurs in the run |
| `Scheduler.TaskRegistry.constructor` | cron/cron.go:17 | the registry starts empty |
| `Scheduler.TaskRegistry.Add` | cron/cron.go:38-63 | fails with the first rule that does not fit the grammar, returning id 0 and leaving the registry unchanged; otherwise returns the old number of tasks as the id, stores the task with each rule split on " " under that id (replacing any task there), and changes no other entry |
| `Scheduler.TaskRegistry.Clear` | cron/cron.go:66-72 | no listed id remains; every unlisted id keeps its task; unknown ids are ignored |
| `Scheduler.TaskRegistry.Exec` | cron/cron.go:87-108 | the dispatched ids are exactly the due tasks, and each appears once |
| `Scheduler.NextIdFreshWithoutClear` | cron/cron.go:60-61 | while the ids are 0 to n - 1, the next id n is unused, and after adding it the ids are 0 to n |
| `Scheduler.NextIdCollidesAfterClear` | cron/cron.go:60-61 | after any id except the newest is cleared, the next id is still in use |
| `Scheduler.IdReuseScenario` | cron/cron.go:60-70 | add, add, clear the first, add: the third id equals the second, and the second task's slot now holds the third action |
| `Clock.Wrap64` | cron/cron.go:84 | 64-bit wrap-around yields a value in range that is congruent to the exact value, and leaves in-range values unchanged |
| `Clock.WaitDurationIsWrappedExact` | cron/cron.go:84 | wrapping after every multiplication gives the same result as wrapping the exact value once |
| `Clock.WaitReachesNextSecond` | cron/cron.go:82-85 | when the two clock readings agree, the sleep is more than 0 and at most 10^9 nanoseconds, it ends exactly at the start of the next second, and no second boundary comes before that |

## Left out

- Goroutines. These are `go initCron()`, `go exec()` and `go t.action()`. `Exec`
  records a dispatch by appending the task id to the list it returns.
- The mutex around `Add` and `Clear`, and the unsynchronised read of `tasks` in
  `exec`. The model is sequential, so these concurrency concerns do not arise.
- The clock: `time.Now`, `time.Sleep` and `Format("05 04 15 02 01 2006")`.
  - `Exec` takes the six formatted time fields as a parameter.
  - `WaitDuration` takes the second and nanosecond readings as parameters.
  - The sleep itself is not modelled.
- The endless loop of `initCron`. It only alternates `wait` and `exec`. Finite runs of
  ticks are covered by `FireCount` and its lemmas.
- `regexp.Compile` and its error branch. The pattern is a constant, so that branch
  is never taken; `ValidRule` takes the library's place.
- The bodies of actions. An action is represented by a number (`ActionId`).
- Scheduler.TaskRegistry.Exec: `exec` visits the map in Go's randomised order. The
  model picks an arbitrary unvisited id at each step. Its contract says which ids are
  dispatched, but not in what order.
- Scheduler.TaskRegistry.Add: ids are `nat` rather than Go's `uint`. The map can never
  hold 2^64 tasks, so `uint(len(tasks))` cannot wrap.
- Matcher.CheckRule: it requires the rule to be no longer than the time fields. Go
  would panic on the out-of-range index. Every rule that `Add` stores satisfies this
  (`ValidRuleFieldCount`).
