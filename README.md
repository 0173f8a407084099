# Relative-time formatter (plandex command-line client)

This project models the formatter the command-line client uses to show how long ago something happened. It prints "just now", "1s ago", "42m ago" and "3w from now", and for gaps of a month or more it prints an absolute date. The formatter was adapted from go-humanize. Everything it computes is integer arithmetic on nanosecond counts plus a binary search in an ascending threshold table. The model states that arithmetic and that search exactly and proves what they guarantee.

- `search.dfy`, module `SortSearch`: Go's `sort.Search`, written as the recursive binary search it runs. For a monotone predicate it returns the least index where the predicate holds. For ANY predicate, it returns `n` only after finding the predicate false at `n - 1`.
- `reltime.dfy`, module `Format`: the following parts of `app/cli/format/time.go`.
  - The unit constants.
  - Go's saturating `Time.Sub` and truncating integer division.
  - The table type `relTimeMagnitude`, with its `Fn` closures represented as the datatype `Kind`.
  - `customRelTime`, `defaultMagnitudes`, `relTime` and `Time`.

Modelling choices:

- Instants and durations are `int` nanosecond counts.
- `customRelTime` returns an `Outcome`. That is either `AbsoluteDate(a)` or the closure call it would make, `Relative(fn, arg, lbl)`.
- `Render` applies the closure and yields a `Text`. Numbers stay numbers in a `Text`.
- `Time(t, now)` receives the current instant as a parameter.

## Model

| member | source | states |
|---|---|---|
| SortSearch.SearchIn | app/cli/format/time.go:84-86 | the binary search of `sort.Search` on a window [i, j) ends inside that window |
| SortSearch.Search | app/cli/format/time.go:84-86 | `sort.Search(n, f)` returns an index in [0, n] |
| SortSearch.SearchInFindsBoundary | app/cli/format/time.go:84-86 | if f is monotone, f is false left of i and f is true at j, the search ends on the first index where f holds |
| SortSearch.SearchFindsFirstTrue | app/cli/format/time.go:84-86 | for a monotone predicate, `sort.Search` returns the least index where it holds, or n if there is none |
| SortSearch.SearchInEndsPastLastOnlyIfFalse | app/cli/format/time.go:84-91 | for any predicate, a search of a non-empty window that returns its end tested the last index and found it false |
| SortSearch.SearchPastEndOnlyIfLastFalse | app/cli/format/time.go:84-91 | `sort.Search(n, f) == n` with n > 0 implies f(n - 1) is false, whatever f is |
| Format.UnitsConsistent | app/cli/format/time.go:12-18 | the unit constants, written out in nanoseconds, are the multiples the file defines: Day = 24h, Week = 7 days, Month = 30 days, Year = 12 months, LongTime = 37 years (over Go's own units). They increase strictly and all fit an int64 Duration |
| Format.Sub | app/cli/format/time.go:69-73 | the difference always fits a Duration. It is exact when t - u fits, and saturates to the largest or smallest Duration when t - u is above or below that range. Its sign agrees with the order of t and u |
| Format.GoDiv | app/cli/format/time.go:98 | Go's `/` on unbounded integers, which covers every dividend the formatter passes (all are non-negative). It truncates toward zero: the magnitude of the quotient is the floor of |x| / |y|, and its sign is the sign of x·y |
| Format.GoDivOfNonNegative | app/cli/format/time.go:98 | for a non-negative dividend, Go's truncating division equals Euclidean division |
| Format.LabelAndDiff | app/cli/format/time.go:68-74 | the difference is non-negative and equals |b − a|, saturated at the largest Duration; the label is `blbl` exactly when a is strictly after b, otherwise `albl` |
| Format.Exceeds | app/cli/format/time.go:84-86 | the predicate handed to `sort.Search` holds at index i exactly when D[i] > diff, and it is monotone on an ascending table |
| Format.Bucket | app/cli/format/time.go:84-92 | the clamped search index always selects an entry of the table |
| Format.Scale | app/cli/format/time.go:94-98 | the quantity handed to the closure. For a non-negative difference it equals diff / DivBy: the `DivBy == 1` shortcut and the truncating division agree |
| Format.CustomRelTime | app/cli/format/time.go:67-99 | the result is the absolute date of `a` exactly when the difference reaches the last threshold. Otherwise it calls the chosen bucket's closure with the direction label and with the difference, unchanged when DivBy is 1 and divided by DivBy otherwise. The requires clauses exclude exactly Go's two panics: an empty table, and a zero DivBy in the chosen bucket |
| Format.Render | app/cli/format/time.go:49-59 | calling the chosen closure: a date is rendered exactly for an absolute outcome, at the instant given. Every closure except "just now" prints the label it receives. `Format.ClosuresIgnoreArguments` states which arguments each closure ignores |
| Format.ClosuresIgnoreArguments | app/cli/format/time.go:49-59 | the "just now" closure ignores both the quantity and the label. The fixed closures ignore the quantity. The scaled closures print the quantity with their unit and the label |
| Format.ClampNeverFires | app/cli/format/time.go:77-91 | after the early return, the search index is already inside the table for any table, so the clamp never changes it |
| Format.BucketBrackets | app/cli/format/time.go:84-86 | on an ascending table below the last threshold, the bucket n is the first whose threshold exceeds the difference: D[n-1] ≤ diff < D[n] |
| Format.BucketIsBracket | app/cli/format/time.go:84-92 | on an ascending table, an index n with D[n-1] ≤ diff < D[n] is the bucket chosen, and diff is below the last threshold |
| Format.CustomRelTimeUsesBracket | app/cli/format/time.go:27-30 | on an ascending table, any n with D[n-1] ≤ diff < D[n] and a non-zero DivBy (the only divisor Go uses) is the bucket chosen, and it is reported: its closure, its scaled quantity and the direction label |
| Format.DefaultMagnitudes | app/cli/format/time.go:48-60 | the default table has 11 entries that rise strictly from 1s to 30 days (1s < 2s < 1m < 2m < 1h < 2h < 1d < 2d < 1w < 2w < 30d), none with a zero divisor |
| Format.DefaultBucket | app/cli/format/time.go:48-60 | on any table with the default thresholds, the search picks the bucket read off by hand (`DefaultIndex`) for each difference below 30 days |
| Format.DefaultOutcome | app/cli/format/time.go:84-98 | below 30 days, a table with the default thresholds reports the hand-read bucket's closure, the scaled difference and the direction label |
| Format.RelTime | app/cli/format/time.go:63-65 | `relTime` gives the absolute date exactly when the gap is at least 30 days, and otherwise uses the direction label. `Format.RelTimeBuckets` states its result bucket by bucket |
| Format.RelTimeBuckets | app/cli/format/time.go:48-65 | with the default table: a difference under 1s gives "just now" whatever the label. In [1s, 2s) the result is "1s", and likewise "1m", "1h", "1d" and "1w" in their fixed buckets. The scaled buckets receive diff/Second, diff/Minute, diff/Hour, diff/Day and diff/Week. From 30 days on, the result is the absolute date |
| Format.DefaultQuantityInBucket | app/cli/format/time.go:51-59 | with the default table, printed quantities stay in their bucket: seconds 2..59, minutes 2..59, hours 2..23, days 2..6, weeks 2..4 |
| Format.Time | app/cli/format/time.go:23-25 | `Time` prints a date, that of the given instant, exactly when the gap to now is at least 30 days. `Format.TimeDirection` states the "ago" / "from now" / "just now" cases |
| Format.TimeDirection | app/cli/format/time.go:23-25 | `Time` says "ago" for an instant at least 1s in the past and "from now" for one at least 1s in the future (gap under 30 days). Under 1s it says "just now". From 30 days on it prints the date of the instant |
| Format.ThreeWeeksAgo | app/cli/format/time.go:59 | three weeks back renders as the count 3 with unit "w" and label "ago", i.e. "3w ago" |
| Format.ThreeWeeksEarlier | app/cli/format/time.go:62 | `relTime` with instants three weeks apart and the labels "earlier"/"later" renders "3w earlier" |

## Left out

- `time.Now()`, `.UTC()`, `.Local()` and `Format("Jan 2 2006")` (clock, time zone, calendar): the current instant is a parameter of `Time`, and the absolute date is the tag `DateText(a)`.
- `fmt.Sprintf` text: a rendered phrase is a `Text` value holding the fixed text or the count, unit and label. Integer-to-decimal conversion is not modelled.
- The monotonic-clock reading inside `time.Time`, and its wall/ext encoding: an instant is a single nanosecond count. `time.Time.Sub`'s saturation to the Duration range is modelled.
- `Format.CustomRelTime` does not model Go's runtime panics. Its requires clauses exclude the two inputs that panic: an empty table (the last entry is read) and a zero `DivBy` in the chosen bucket (integer division by zero).
- `Format.GoDiv` works on unbounded integers. It does not model Go's 64-bit wrap of `MinInt64 / -1`, because the formatter only divides non-negative differences.
- app/server/model/plan/tell_state.go declares state structs and the retry constant only. The stream parser, retry loop and observer map that use them are not part of this model.
- app/cli/cmd/apply.go is command registration that delegates to code outside the shown files. It is not part of this model.

Where the comments and the code disagree, the model follows the code:

- The comment at app/cli/format/time.go:22 shows "3 weeks ago". The table renders "3w ago" (see `Format.ThreeWeeksAgo`).
- The comment at app/cli/format/time.go:62 shows "3 weeks earlier". The table renders "3w earlier" (see `Format.ThreeWeeksEarlier`).
- The comment at app/cli/format/time.go:32-34 describes a `Format` field with `%s`/`%d`. The struct has an `Fn` closure instead.
- The comment at app/cli/format/time.go:79 says "greater than". The code switches to the absolute date when the difference is greater than OR EQUAL to the last threshold.
