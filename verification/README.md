# DateFormatter relative-time selection, in Dafny

A model of `DateFormatter::format` from the BlogMVC Yii application. `format`
turns a date into a relative-time text such as "3 days ago" or "just now". It
checks the units limit, resolves the target (a `DateTime` or a string to
parse), takes the calendar difference to the cached reference instant, walks
the fixed unit table (years, months, days, hours, minutes, seconds), and
translates the selected fragments through the "ago" or "just now" template.

The doc comment of `format` promises `'xxx {unit}, zzz {unit} ago'`. The code
does something else, and the model follows the code. The walk's counter is only
incremented when it is already positive, so it stays zero. The walk also stops
right after the first non-zero unit. So a result carries at most one fragment,
and the units limit has no effect once it is at least one. The model proves
this behaviour: `Selection.Walk` follows the loop step by step,
`Selection.Selected` is an independent reference ("the largest non-zero unit"),
and `Selection.SelectFragments` is the loop as a method with invariants.

Modules:
- `Units`: the unit table, field letters, translation names, the calendar difference.
- `Selection`: fragments, the walk, and its reference outcome.
- `DateFormatter`: errors, target resolution, `format`, `reset`, `init`.
- `Calls`: a sequence of `format`/`reset` calls on one formatter.
- `Rendering`: translation keys, `implode`, and the returned text.
- `Wrappers`: `Option`.

Foreign parts become parameters. `Calendar` supplies date parsing and the
calendar difference. `Rendering.Translate` supplies the `Yii::t` lookup. A
clock reading is passed to `Init`, `Reset` and `Format`; `Format` uses it only to parse a date string.

## Model

| member | source | states |
|---|---|---|
| Units.FromKey | Yii/components/DateFormatter.php:26-33 | the table read as a map from field letter to unit: a letter finds a unit exactly when that unit's key is that letter; `Magnitude` reads the difference through this letter, as `$diff->$key` does |
| Units.Index | Yii/components/DateFormatter.php:26-33 | every unit has one position in the table, and no other position holds it |
| Units.TableIsOneToOne | Yii/components/DateFormatter.php:26-33 | the table lists every unit exactly once; field letters and unit names are both one-to-one |
| Units.IsZeroCharacterised | Yii/components/DateFormatter.php:75-92 | a difference is zero in every unit iff every table entry reads zero, iff it is the zero difference |
| Selection.FirstNonZeroFrom | Yii/components/DateFormatter.php:75-85 | finds the first table position from `k` whose magnitude is non-zero with all before it zero, or reports that all remaining entries are zero |
| Selection.Selected | Yii/components/DateFormatter.php:75-85 | the expected walk outcome: at most one fragment; none iff the difference is zero; else the largest non-zero unit with its exact magnitude, all larger units zero |
| Selection.WalkFromSelects | Yii/components/DateFormatter.php:73-85 | with a limit of at least one and the counter at zero, the walk from any position emits exactly the first non-zero unit from there on |
| Selection.WalkOutcome | Yii/components/DateFormatter.php:73-85 | the walk produces nothing for a limit below one and the reference outcome otherwise |
| Selection.LimitHasNoEffect | Yii/components/DateFormatter.php:73-80 | any two limits of at least one give the same walk, since the counter never reaches the limit |
| Selection.SelectFragments | Yii/components/DateFormatter.php:73-85 | the imperative loop: the counter stays zero, no fragment appears until the walk ends, and the result equals the reference outcome (empty for a limit below one) |
| DateFormatter.Format | Yii/components/DateFormatter.php:57-93 | a limit below one is the invalid-limit error whatever the target; otherwise a string the parser rejects at the call's clock reading is the invalid-date error with the parse failure as cause; that error comes only from such a string; a resolved date never fails |
| DateFormatter.FormatThrows | Yii/components/DateFormatter.php:59-68 | the limit failure carries the limit message whatever the target; the parse failure carries the invalid-date message and the parser's cause; the two messages tell the failures apart |
| DateFormatter.FormatSelectsLargestUnit | Yii/components/DateFormatter.php:71-92 | with a valid limit and a resolved target: "just now" iff the difference is zero; otherwise one fragment, the largest non-zero unit with its magnitude, all larger units zero |
| DateFormatter.AtMostOneFragment | Yii/components/DateFormatter.php:75-89 | every "ago" result holds exactly one fragment, whatever the limit |
| DateFormatter.FormatIgnoresLimit | Yii/components/DateFormatter.php:57-85 | any two limits of at least one give the same result |
| DateFormatter.ResetThenFormatNow | Yii/components/DateFormatter.php:71-116 | right after a reset, any target the calendar places at zero difference from the reset instant formats as "just now" |
| DateFormatter.ThreeDaysFourHours | Yii/components/DateFormatter.php:73-89 | a difference of 3 days 4 hours with the default limit of 2 gives only the 3-days fragment |
| Calls.FormatKeepsReference | Yii/components/DateFormatter.php:71 | `format` calls never change the reference instant |
| Calls.LastResetWins | Yii/components/DateFormatter.php:113-116 | after a reset and any number of `format` calls, the reference instant is that reset's clock reading |
| Calls.InitKeepsClock | Yii/components/DateFormatter.php:40-43 | a freshly initialised formatter keeps its initialisation clock reading as reference instant through any number of `format` calls |
| Calls.RepeatedFormatAgrees | Yii/components/DateFormatter.php:57-93 | two `format` calls with the same target and limit and no reset between them give equal results, when the target is a resolved date or is a string parsed at the same clock reading |
| Rendering.TranslationKeysDistinct | Yii/components/DateFormatter.php:87-105 | the "ago", "just now" and per-unit translation keys are pairwise distinct |
| Rendering.JoinAppend | Yii/components/DateFormatter.php:88 | appending a part to a non-empty list appends the separator and that part to the joined text, so the text is every part in order with one separator between neighbours |
| Rendering.FormatText | Yii/components/DateFormatter.php:86-106 | the returned text is the "just now" template for a zero difference; otherwise the "ago" template around the single translated fragment of the largest non-zero unit |

## Left out

- Date parsing, `DateTime::diff`, timezones and the `invert` sign are calendar-library calls. They are the `Calendar` parameter, and a difference is six non-negative whole numbers.
- `Instant` is a stand-in whose stamp nothing reads. Nothing about calendar arithmetic is modelled.
- Date strings may be relative ("now", "-2 hours"), so the parser is given the wall-clock reading of each `format` call. Two calls on the same string at different readings are not promised to agree.
- `Yii::t` and its message catalogue are a framework lookup. They are the `Rendering.Translate` parameter; plural forms and locales are not modelled.
- The wall clock read by `init` and `reset` (`new DateTime`) is a clock-reading parameter.
- The `CComponent` base class and component registration are framework plumbing, not modelled.
- The multi-unit output promised by the doc comment is not modelled, because the code never produces it. The model states the single-unit behaviour of the code.
- A non-integer `$unitsLimit` (PHP's loose comparison) is not modelled: the limit is an integer.
- Exception chaining keeps only the parse failure's message as the cause, not the exception object.
