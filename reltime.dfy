/**
 The relative-time formatter of the command-line client ("3s ago",
 "2h from now", or an absolute date once the gap reaches a month).

 Instants and durations are integer counts of nanoseconds, as Go's
 `time.Duration` is; the clock, time zones and calendar rendering are
 outside the model, so an absolute date is the tag `DateText(at)`. The
 per-bucket render closures of the source are the datatype `Kind`, and a
 call of a closure is the value `Relative(fn, arg, lbl)`, which `Render`
 turns into text with the number kept as a number.
 */
module Format {
  import opened SortSearch

  // Units of Go's time package, in nanoseconds.
  const Nanosecond: int := 1
  const Microsecond: int := 1_000
  const Millisecond: int := 1_000_000
  const Second: int := 1_000_000_000
  const Minute: int := 60_000_000_000
  const Hour: int := 3_600_000_000_000

  // Units defined by the formatter on top of them (written out in
  // nanoseconds; UnitsConsistent proves they are the intended multiples).
  const Day: int := 86_400_000_000_000
  const Week: int := 604_800_000_000_000
  const Month: int := 2_592_000_000_000_000
  const Year: int := 31_104_000_000_000_000
  const LongTime: int := 1_150_848_000_000_000_000

  // Range of time.Duration, a signed 64-bit integer.
  const MinDuration: int := -0x8000_0000_0000_0000
  const MaxDuration: int := 0x7fff_ffff_ffff_ffff

  /**
   The units are the multiples time.go defines them as (Day = 24 hours,
   Week = 7 days, Month = 30 days, Year = 12 months, LongTime = 37 years,
   over Go's own units), increase strictly and all fit a Duration.
   */
  lemma UnitsConsistent()
    ensures Microsecond == 1000 * Nanosecond && Millisecond == 1000 * Microsecond && Second == 1000 * Millisecond
    ensures Minute == 60 * Second && Hour == 60 * Minute && Day == 24 * Hour
    ensures Week == 7 * Day && Month == 30 * Day && Year == 12 * Month && LongTime == 37 * Year
    ensures 0 < Second < Minute < Hour < Day < Week < Month < Year < LongTime <= MaxDuration
  {
  }

  function Abs(x: int): (r: nat)
  {
    if x < 0 then -x else x
  }

  function Min(x: int, y: int): (m: int)
  {
    if x <= y then x else y
  }

  /**
   `t.Sub(u)` of Go's time package: the duration t - u, saturated to the
   range of a Duration when it does not fit.
   */
  function Sub(t: int, u: int): (d: int)
    ensures MinDuration <= d <= MaxDuration
    ensures MinDuration <= t - u <= MaxDuration ==> d == t - u
    ensures t - u > MaxDuration ==> d == MaxDuration
    ensures t - u < MinDuration ==> d == MinDuration
    ensures (d < 0 <==> t < u) && (d == 0 <==> t == u)
  {
    if t - u < MinDuration then MinDuration
    else if t - u > MaxDuration then MaxDuration
    else t - u
  }

  /**
   Go's integer `/`, which truncates toward zero (Dafny's `/` is Euclidean),
   for unbounded integers: the 64-bit wrap of MinDuration / -1 is not
   modelled, as the formatter only divides non-negative differences.
   The result has the largest magnitude not exceeding |x| / |y| and the sign
   of x * y.
   */
  function GoDiv(x: int, y: int): (q: int)
    requires y != 0
    ensures Abs(q) * Abs(y) <= Abs(x) < (Abs(q) + 1) * Abs(y)
    ensures q == 0 || (q < 0 <==> (x < 0) != (y < 0))
  {
    var ax, ay := Abs(x), Abs(y);
    var m := ax / ay;
    EuclideanBounds(ax, ay);
    assert 0 <= m && m * ay <= ax < (m + 1) * ay;
    if (x < 0) == (y < 0) then m else -m
  }

  /** The quotient of natural numbers is the largest multiple not exceeding the dividend. */
  lemma EuclideanBounds(n: nat, d: nat)
    requires d > 0
    ensures (n / d) * d <= n < (n / d + 1) * d
  {
    assert n == (n / d) * d + n % d;
  }

  /** For a non-negative dividend, truncation and Euclidean division agree. */
  lemma GoDivOfNonNegative(x: int, y: int)
    requires x >= 0 && y != 0
    ensures GoDiv(x, y) == x / y
  {
  }

  /** What a bucket's render closure (the source's `Fn` field) does. */
  datatype Kind =
    | JustNow              // "just now": ignores both the quantity and the label
    | Fixed(text: string)  // "<text> <label>": ignores the quantity
    | Scaled(unit: string) // "<quantity><unit> <label>"

  /** One entry of the threshold table: a bucket ends strictly below `d`. */
  datatype Magnitude = Magnitude(d: int, fn: Kind, divBy: int)

  /** What `customRelTime` decides: an absolute date, or which closure to call with what. */
  datatype Outcome =
    | AbsoluteDate(at: int)
    | Relative(fn: Kind, arg: int, lbl: string)

  /** The string the formatter returns, with numbers kept as numbers. */
  datatype Text =
    | DateText(at: int)
    | JustNowText
    | FixedText(text: string, lbl: string)
    | CountText(count: int, unit: string, lbl: string)

  /** A non-empty table with no zero divisor: `customRelTime` never panics on it. */
  predicate ValidTable(mags: seq<Magnitude>) {
    |mags| > 0 && forall i :: 0 <= i < |mags| ==> mags[i].divBy != 0
  }

  /** Ascending by threshold, as a table passed to the formatter is meant to be. */
  ghost predicate Ascending(mags: seq<Magnitude>) {
    forall i, j :: 0 <= i < j < |mags| ==> mags[i].d <= mags[j].d
  }

  ghost predicate StrictlyAscending(mags: seq<Magnitude>) {
    forall i, j :: 0 <= i < j < |mags| ==> mags[i].d < mags[j].d
  }

  /** The absolute gap between two instants, as a Duration can hold it. */
  ghost function Distance(a: int, b: int): (d: nat) {
    Min(Abs(a - b), MaxDuration)
  }

  /** The label promised for a relative result: `blbl` when `a` is after `b`. */
  ghost function LabelFor(a: int, b: int, albl: string, blbl: string): (l: string) {
    if a > b then blbl else albl
  }

  /**
   The label and the non-negative difference `customRelTime` works with: it
   starts from `albl` and b - a, and switches to `blbl` and a - b when `a`
   is after `b`.
   */
  function LabelAndDiff(a: int, b: int, albl: string, blbl: string): (r: (string, int))
    ensures r.1 >= 0 && r.1 == Distance(a, b)
    ensures r.0 == LabelFor(a, b, albl, blbl)
  {
    var lbl, diff := albl, Sub(b, a);
    if a > b then (blbl, Sub(a, b)) else (lbl, diff)
  }

  /** The predicate handed to `sort.Search`: the threshold at index i exceeds diff. */
  function Exceeds(mags: seq<Magnitude>, diff: int): (f: nat -> bool)
    ensures forall i: nat :: i < |mags| ==> (f(i) <==> mags[i].d > diff)
    ensures Ascending(mags) ==> Monotone(f, |mags|)
  {
    (i: nat) => i < |mags| && mags[i].d > diff
  }

  /** The bucket index: the search result, clamped to the last entry. */
  function Bucket(mags: seq<Magnitude>, diff: int): (n: nat)
    requires |mags| > 0
    ensures n < |mags|
  {
    var n := Search(|mags|, Exceeds(mags, diff));
    if n >= |mags| then |mags| - 1 else n
  }

  /**
   The quantity the chosen closure receives. The shortcut for a divisor of 1
   gives what the division would: the difference divided by `divBy`.
   */
  function Scale(diff: int, divBy: int): (q: int)
    requires divBy != 0
    ensures diff >= 0 ==> q == diff / divBy
  {
    assert diff >= 0 ==> GoDiv(diff, divBy) == diff / divBy by {
      if diff >= 0 { GoDivOfNonNegative(diff, divBy); }
    }
    if divBy == 1 then diff else GoDiv(diff, divBy)
  }

  /**
   `customRelTime`. Go panics on an empty table (it reads the last entry)
   and on a zero `DivBy` in the chosen bucket; the requires clauses exclude
   exactly those two panics.
   */
  function CustomRelTime(a: int, b: int, albl: string, blbl: string, mags: seq<Magnitude>): (r: Outcome)
    requires |mags| > 0
    requires Distance(a, b) < mags[|mags| - 1].d ==> mags[Bucket(mags, Distance(a, b))].divBy != 0
    ensures r.AbsoluteDate? <==> Distance(a, b) >= mags[|mags| - 1].d
    ensures r.AbsoluteDate? ==> r.at == a
    ensures r.Relative? ==> r.lbl == LabelFor(a, b, albl, blbl)
    ensures r.Relative? ==>
      var m := mags[Bucket(mags, Distance(a, b))];
      r.fn == m.fn && r.arg == (if m.divBy == 1 then Distance(a, b) else Distance(a, b) / m.divBy)
  {
    var (lbl, diff) := LabelAndDiff(a, b, albl, blbl);
    var largestMagnitude := mags[|mags| - 1].d;
    if diff >= largestMagnitude then
      AbsoluteDate(a)
    else
      var mag := mags[Bucket(mags, diff)];
      Relative(mag.fn, Scale(diff, mag.divBy), lbl)
  }

  /**
   Calls the chosen closure (or formats the date). A date is rendered exactly
   for an absolute outcome, and every closure but "just now" prints the label
   it is given.
   */
  function Render(o: Outcome): (t: Text)
    ensures t.DateText? <==> o.AbsoluteDate?
    ensures o.AbsoluteDate? ==> t.at == o.at
    ensures o.Relative? && !o.fn.JustNow? ==> (t.FixedText? || t.CountText?) && t.lbl == o.lbl
  {
    match o
    case AbsoluteDate(a) => DateText(a)
    case Relative(JustNow, _, _) => JustNowText
    case Relative(Fixed(text), _, lbl) => FixedText(text, lbl)
    case Relative(Scaled(unit), q, lbl) => CountText(q, unit, lbl)
  }

  /**
   The closures of the "just now" bucket and of the fixed buckets ignore the
   quantity, and "just now" ignores the label too.
   */
  lemma ClosuresIgnoreArguments(fn: Kind, q1: int, q2: int, l1: string, l2: string)
    ensures !fn.Scaled? ==> Render(Relative(fn, q1, l1)) == Render(Relative(fn, q2, l1))
    ensures fn.JustNow? ==> Render(Relative(fn, q1, l1)) == Render(Relative(fn, q2, l2)) == JustNowText
    ensures fn.Scaled? ==> Render(Relative(fn, q1, l1)) == CountText(q1, fn.unit, l1)
  {
  }

  /**
   Below the last threshold the search already lands inside the table, for
   any table, so the clamp to the last entry never changes the index.
   */
  lemma ClampNeverFires(mags: seq<Magnitude>, diff: int)
    requires |mags| > 0
    requires diff < mags[|mags| - 1].d
    ensures Search(|mags|, Exceeds(mags, diff)) < |mags|
    ensures Bucket(mags, diff) == Search(|mags|, Exceeds(mags, diff))
  {
    if Search(|mags|, Exceeds(mags, diff)) == |mags| {
      SearchPastEndOnlyIfLastFalse(|mags|, Exceeds(mags, diff));
      assert false;
    }
  }

  /**
   On an ascending table, below the last threshold, the bucket is the first
   entry whose threshold is strictly greater than the difference:
   D[n-1] <= diff < D[n].
   */
  lemma BucketBrackets(mags: seq<Magnitude>, diff: int)
    requires |mags| > 0 && Ascending(mags)
    requires diff < mags[|mags| - 1].d
    ensures var n := Bucket(mags, diff);
      && diff < mags[n].d
      && (forall i :: 0 <= i < n ==> mags[i].d <= diff)
      && (n > 0 ==> mags[n - 1].d <= diff)
  {
    var f := Exceeds(mags, diff);
    assert Monotone(f, |mags|);
    SearchFindsFirstTrue(|mags|, f);
    ClampNeverFires(mags, diff);
    var n := Bucket(mags, diff);
    assert f(n);
    forall i | 0 <= i < n ensures mags[i].d <= diff {
      assert !f(i);
    }
  }

  /**
   On an ascending table, a difference with D[n-1] <= diff < D[n] is
   reported by bucket n: its closure, called with the difference in that
   bucket's unit and the label for the direction.
   */
  lemma CustomRelTimeUsesBracket(a: int, b: int, albl: string, blbl: string, mags: seq<Magnitude>, n: nat)
    requires n < |mags| && Ascending(mags)
    requires mags[n].divBy != 0
    requires (n == 0 || mags[n - 1].d <= Distance(a, b)) && Distance(a, b) < mags[n].d
    ensures Distance(a, b) < mags[|mags| - 1].d && Bucket(mags, Distance(a, b)) == n
    ensures var d, m := Distance(a, b), mags[n];
      CustomRelTime(a, b, albl, blbl, mags)
        == Relative(m.fn, if m.divBy == 1 then d else d / m.divBy, LabelFor(a, b, albl, blbl))
  {
    BucketIsBracket(mags, Distance(a, b), n);
  }

  /** On an ascending table, the bucket is the one index n with D[n-1] <= diff < D[n]. */
  lemma BucketIsBracket(mags: seq<Magnitude>, diff: int, n: nat)
    requires |mags| > 0 && Ascending(mags)
    requires n < |mags|
    requires (n == 0 || mags[n - 1].d <= diff) && diff < mags[n].d
    ensures diff < mags[|mags| - 1].d
    ensures Bucket(mags, diff) == n
  {
    assert diff < mags[|mags| - 1].d by {
      if n < |mags| - 1 {
        assert mags[n].d <= mags[|mags| - 1].d;
      }
    }
    // the bucket found by the search brackets diff, and no other index does
    BucketBrackets(mags, diff);
  }

  /** The table `defaultMagnitudes`. */
  function DefaultMagnitudes(): (t: seq<Magnitude>)
    ensures |t| == 11 && ValidTable(t) && StrictlyAscending(t)
    ensures t[0].d == Second && t[|t| - 1].d == Month
  {
    [ Magnitude(Second, JustNow, Second),
      Magnitude(2 * Second, Fixed("1s"), 1),
      Magnitude(Minute, Scaled("s"), Second),
      Magnitude(2 * Minute, Fixed("1m"), 1),
      Magnitude(Hour, Scaled("m"), Minute),
      Magnitude(2 * Hour, Fixed("1h"), 1),
      Magnitude(Day, Scaled("h"), Hour),
      Magnitude(2 * Day, Fixed("1d"), 1),
      Magnitude(Week, Scaled("d"), Day),
      Magnitude(2 * Week, Fixed("1w"), 1),
      Magnitude(Month, Scaled("w"), Week) ]
  }

  /** The thresholds of `defaultMagnitudes`, in order. */
  ghost predicate DefaultThresholds(t: seq<Magnitude>) {
    && |t| == 11
    && t[0].d == Second && t[1].d == 2 * Second
    && t[2].d == Minute && t[3].d == 2 * Minute
    && t[4].d == Hour && t[5].d == 2 * Hour
    && t[6].d == Day && t[7].d == 2 * Day
    && t[8].d == Week && t[9].d == 2 * Week
    && t[10].d == Month
  }

  /** The default bucket for a difference below a month, read off the table by hand. */
  function DefaultIndex(diff: int): (n: nat) {
    if diff < Second then 0
    else if diff < 2 * Second then 1
    else if diff < Minute then 2
    else if diff < 2 * Minute then 3
    else if diff < Hour then 4
    else if diff < 2 * Hour then 5
    else if diff < Day then 6
    else if diff < 2 * Day then 7
    else if diff < Week then 8
    else if diff < 2 * Week then 9
    else 10
  }

  /** The search picks the hand-read bucket on any table with the default thresholds. */
  lemma DefaultBucket(t: seq<Magnitude>, diff: int)
    requires DefaultThresholds(t)
    requires 0 <= diff < Month
    ensures Bucket(t, diff) == DefaultIndex(diff)
  {
    // the default thresholds rise, so the table is ascending
    assert Ascending(t);
    var n := DefaultIndex(diff);
    assert (n == 0 || t[n - 1].d <= diff) && diff < t[n].d;
    BucketIsBracket(t, diff, n);
  }

  /** `relTime`: `customRelTime` on the default table. */
  function RelTime(a: int, b: int, albl: string, blbl: string): (r: Outcome)
    ensures r.AbsoluteDate? <==> Distance(a, b) >= Month
    ensures r.Relative? ==> r.lbl == LabelFor(a, b, albl, blbl)
  {
    CustomRelTime(a, b, albl, blbl, DefaultMagnitudes())
  }

  /** `Time(t)`, with the current instant passed in as `now`. */
  function Time(t: int, now: int): (s: Text)
    ensures s.DateText? <==> Distance(t, now) >= Month
    ensures s.DateText? ==> s.at == t
  {
    Render(RelTime(t, now, "ago", "from now"))
  }

  /**
   With the default table: under a second is "just now" whatever the label;
   each fixed bucket passes the difference through unchanged and prints its
   fixed text; each scaled bucket receives the difference divided by its
   unit; from a month on the result is the absolute date of `a`.
   */
  lemma RelTimeBuckets(a: int, b: int, albl: string, blbl: string)
    ensures var d, l, r := Distance(a, b), LabelFor(a, b, albl, blbl), RelTime(a, b, albl, blbl);
      && (d < Second ==> r == Relative(JustNow, d / Second, l) && Render(r) == JustNowText)
      && (Second <= d < 2 * Second ==> r == Relative(Fixed("1s"), d, l))
      && (2 * Second <= d < Minute ==> r == Relative(Scaled("s"), d / Second, l))
      && (Minute <= d < 2 * Minute ==> r == Relative(Fixed("1m"), d, l))
      && (2 * Minute <= d < Hour ==> r == Relative(Scaled("m"), d / Minute, l))
      && (Hour <= d < 2 * Hour ==> r == Relative(Fixed("1h"), d, l))
      && (2 * Hour <= d < Day ==> r == Relative(Scaled("h"), d / Hour, l))
      && (Day <= d < 2 * Day ==> r == Relative(Fixed("1d"), d, l))
      && (2 * Day <= d < Week ==> r == Relative(Scaled("d"), d / Day, l))
      && (Week <= d < 2 * Week ==> r == Relative(Fixed("1w"), d, l))
      && (2 * Week <= d < Month ==> r == Relative(Scaled("w"), d / Week, l))
      && (Month <= d ==> r == AbsoluteDate(a))
  {
    if Distance(a, b) < Month {
      DefaultOutcome(a, b, albl, blbl, DefaultMagnitudes());
    }
  }

  /** Below a month, a table with the default thresholds reports the hand-read bucket's closure call. */
  lemma DefaultOutcome(a: int, b: int, albl: string, blbl: string, t: seq<Magnitude>)
    requires ValidTable(t) && DefaultThresholds(t)
    requires Distance(a, b) < Month
    ensures var d, m := Distance(a, b), t[DefaultIndex(Distance(a, b))];
      CustomRelTime(a, b, albl, blbl, t)
        == Relative(m.fn, if m.divBy == 1 then d else d / m.divBy, LabelFor(a, b, albl, blbl))
  {
    DefaultBucket(t, Distance(a, b));
  }

  /** With the default table, the quantity printed by a scaled bucket stays inside that bucket. */
  lemma DefaultQuantityInBucket(a: int, b: int, albl: string, blbl: string)
    ensures var r := RelTime(a, b, albl, blbl);
      && (r.Relative? && r.fn == Scaled("s") ==> 2 <= r.arg <= 59)
      && (r.Relative? && r.fn == Scaled("m") ==> 2 <= r.arg <= 59)
      && (r.Relative? && r.fn == Scaled("h") ==> 2 <= r.arg <= 23)
      && (r.Relative? && r.fn == Scaled("d") ==> 2 <= r.arg <= 6)
      && (r.Relative? && r.fn == Scaled("w") ==> 2 <= r.arg <= 4)
      && (r.Relative? && r.fn.Fixed? ==> r.arg == Distance(a, b))
  {
    RelTimeBuckets(a, b, albl, blbl);
    var d := Distance(a, b);
    if 2 * Second <= d < Minute {
      QuotientRange(d, Second, 2, 60);
    } else if 2 * Minute <= d < Hour {
      QuotientRange(d, Minute, 2, 60);
    } else if 2 * Hour <= d < Day {
      QuotientRange(d, Hour, 2, 24);
    } else if 2 * Day <= d < Week {
      QuotientRange(d, Day, 2, 7);
    } else if 2 * Week <= d < Month {
      QuotientRange(d, Week, 2, 5);
    }
  }

  /** A difference in [lo * unit, hi * unit) is between lo and hi - 1 units. */
  lemma QuotientRange(d: int, unit: int, lo: int, hi: int)
    requires unit > 0 && lo * unit <= d < hi * unit
    ensures lo <= d / unit < hi
  {
    var q := d / unit;
    assert q * unit <= d < (q + 1) * unit by {
      assert d == q * unit + d % unit;
    }
    if q < lo {
      MulMonotone(q + 1, lo, unit);
    }
    if q >= hi {
      MulMonotone(hi, q, unit);
    }
  }

  lemma MulMonotone(x: int, y: int, u: int)
    requires x <= y && u > 0
    ensures x * u <= y * u
  {
    assert y * u - x * u == (y - x) * u;
  }

  /**
   `Time(t)` says "ago" for an instant at least a second in the past and
   "from now" for one at least a second in the future, as long as the gap is
   under a month; under a second it says "just now", and from a month on it
   gives the date of `t`.
   */
  lemma TimeDirection(t: int, now: int)
    ensures var s, d := Time(t, now), Distance(t, now);
      && (d < Second ==> s == JustNowText)
      && (Month <= d ==> s == DateText(t))
      && (Second <= d < Month ==> (s.FixedText? || s.CountText?) && s.lbl == (if t < now then "ago" else "from now"))
  {
    RelTimeBuckets(t, now, "ago", "from now");
  }

  /** Three weeks back renders as the count 3 with unit "w" and label "ago". */
  lemma ThreeWeeksAgo(now: int)
    ensures Time(now - 3 * Week, now) == CountText(3, "w", "ago")
  {
    RelTimeBuckets(now - 3 * Week, now, "ago", "from now");
  }

  /** `relTime` with a past and a future instant three weeks apart gives "3w earlier". */
  lemma ThreeWeeksEarlier(past: int)
    ensures Render(RelTime(past, past + 3 * Week, "earlier", "later")) == CountText(3, "w", "earlier")
  {
    RelTimeBuckets(past, past + 3 * Week, "earlier", "later");
  }
}
