/** What each generated SQL fragment means, stated over values rather than SQL text.
    Every helper that reads a constant takes the configuration record explicitly. */
module Helpers {
  import opened Sql
  import opened Text
  import opened Constants

  // ---------------------------------------------------------------------------
  // Incremental date filter
  // ---------------------------------------------------------------------------

  /** The lower date bound a run applies. Days are counted as integers. */
  datatype DateFilter = NoLowerBound | OnOrAfter(bound: int)

  /** A full run adds no condition; an incremental run adds
      `column >= DATE_SUB(today, INTERVAL days DAY)`. The current date is a parameter. */
  function GenerateDateFilter(today: int, days: int, isIncremental: bool): DateFilter
  {
    if !isIncremental then NoLowerBound else OnOrAfter(today - days)
  }

  /** Whether a row whose date column holds `day` survives the filter; the
      comparison with a NULL date is NULL, so such a row is dropped by a bound. */
  predicate Admits(f: DateFilter, day: Nullable<int>)
  {
    match f
    case NoLowerBound => true
    case OnOrAfter(b) => IsTrue(AtLeast(day, b))
  }

  /** A non-incremental run has no lower bound: every day, even a NULL one, passes. */
  lemma FullRunHasNoBound(today: int, days: int, day: Nullable<int>)
    ensures GenerateDateFilter(today, days, false) == NoLowerBound
    ensures Admits(GenerateDateFilter(today, days, false), day)
  {
  }

  /** An incremental run admits exactly the days on or after `today - days`. */
  lemma DateFilterAdmits(today: int, days: int, isIncremental: bool, day: int)
    ensures Admits(GenerateDateFilter(today, days, isIncremental), Value(day))
        <==> (!isIncremental || day >= today - days)
  {
  }

  /** A NULL date passes only a run without a bound. */
  lemma DateFilterNullDay(today: int, days: int, isIncremental: bool)
    ensures Admits(GenerateDateFilter(today, days, isIncremental), Null) <==> !isIncremental
  {
  }

  /** With a three-day reload window, `today - 3` is the oldest day reprocessed
      (for today = 2024-12-20 that is 2024-12-17). */
  lemma ReloadWindowExample(today: int)
    ensures Admits(GenerateDateFilter(today, 3, true), Value(today - 3))
    ensures !Admits(GenerateDateFilter(today, 3, true), Value(today - 4))
    ensures Admits(GenerateDateFilter(today, 3, true), Value(today))
  {
  }

  /** A longer look-back admits every day a shorter one admits. */
  lemma LongerLookBackAdmitsMore(today: int, shorter: int, longer: int, day: Nullable<int>)
    requires shorter <= longer
    ensures Admits(GenerateDateFilter(today, shorter, true), day)
        ==> Admits(GenerateDateFilter(today, longer, true), day)
  {
  }

  /** Under the configuration invariant, the reload window lies within the backfill
      window, and that within the retention horizon. */
  lemma ConfiguredWindowsNest(c: Config, today: int, day: Nullable<int>)
    requires WindowsNested(c)
    ensures Admits(GenerateDateFilter(today, c.reloadDays, true), day)
        ==> Admits(GenerateDateFilter(today, c.backfillDays, true), day)
    ensures Admits(GenerateDateFilter(today, c.backfillDays, true), day)
        ==> Admits(GenerateDateFilter(today, c.dataRetentionDays, true), day)
  {
    LongerLookBackAdmitsMore(today, c.reloadDays, c.backfillDays, day);
    LongerLookBackAdmitsMore(today, c.backfillDays, c.dataRetentionDays, day);
  }

  // ---------------------------------------------------------------------------
  // Deduplication key
  // ---------------------------------------------------------------------------

  /** `IFNULL(CAST(f AS STRING), '')`: a field's text, NULL read as the empty string.
      A field is given by the text its cast produces. */
  function FieldText(f: Nullable<string>): string
  {
    IfNull(f, "")
  }

  /** The texts of the key fields, one per field, in field order. */
  function FieldTexts(fields: seq<Nullable<string>>): (texts: seq<string>)
    ensures |texts| == |fields|
    ensures forall k | 0 <= k < |fields| :: texts[k] == FieldText(fields[k])
  {
    seq(|fields|, k requires 0 <= k < |fields| => FieldText(fields[k]))
  }

  /** The string that is hashed: the field texts joined with `'|'`. */
  function DedupPreimage(fields: seq<Nullable<string>>): string
  {
    Join(FieldTexts(fields), '|')
  }

  /** The key itself. `digest` stands for `TO_HEX(SHA256(CAST(_ AS BYTES)))`, whose
      only property used here is that it is a function. */
  function DedupKey<K>(digest: string -> K, fields: seq<Nullable<string>>): K
  {
    digest(DedupPreimage(fields))
  }

  /** The key depends only on the field texts: tuples that agree field by field
      once NULL is read as `''` get the same key, whatever the digest. */
  lemma DedupKeyDependsOnTexts<K>(digest: string -> K, f: seq<Nullable<string>>, g: seq<Nullable<string>>)
    requires |f| == |g|
    requires forall k | 0 <= k < |f| :: FieldText(f[k]) == FieldText(g[k])
    ensures DedupKey(digest, f) == DedupKey(digest, g)
  {
    assert FieldTexts(f) == FieldTexts(g);
  }

  /** A NULL field and an empty field are indistinguishable in the key. */
  lemma NullFieldLikeEmpty<K>(digest: string -> K, fields: seq<Nullable<string>>, k: nat)
    requires k < |fields|
    ensures DedupKey(digest, fields[k := Null]) == DedupKey(digest, fields[k := Value("")])
  {
    DedupKeyDependsOnTexts(digest, fields[k := Null], fields[k := Value("")]);
  }

  /** When no field text contains `'|'`, the preimage has exactly one
      `'|'`-separated slot per field, holding that field's text, in field order. */
  lemma DedupSlots(fields: seq<Nullable<string>>)
    requires |fields| >= 1
    requires FreeOf(FieldTexts(fields), '|')
    ensures Split(DedupPreimage(fields), '|') == FieldTexts(fields)
    ensures |Split(DedupPreimage(fields), '|')| == |fields|
  {
    SplitJoin(FieldTexts(fields), '|');
  }

  /** Under the same condition the preimage determines the field texts: two
      non-empty tuples share a preimage exactly when their texts agree. */
  lemma DedupPreimageDeterminesTexts(f: seq<Nullable<string>>, g: seq<Nullable<string>>)
    requires |f| >= 1 && |g| >= 1
    requires FreeOf(FieldTexts(f), '|') && FreeOf(FieldTexts(g), '|')
    ensures DedupPreimage(f) == DedupPreimage(g) <==> FieldTexts(f) == FieldTexts(g)
  {
    if DedupPreimage(f) == DedupPreimage(g) {
      JoinInjective(FieldTexts(f), FieldTexts(g), '|');
    }
  }

  /** Without that condition distinct tuples can share a preimage: a `'|'` inside
      a field reads as a separator. */
  lemma SeparatorInFieldCollides()
    ensures DedupPreimage([Value("a|b")]) == DedupPreimage([Value("a"), Value("b")])
  {
    var one: seq<Nullable<string>> := [Value("a|b")];
    var two: seq<Nullable<string>> := [Value("a"), Value("b")];
    assert FieldTexts(one) == ["a|b"];
    assert FieldTexts(two) == ["a", "b"];
    assert Join(["b"], '|') == "b";
    assert Join(["a", "b"], '|') == "a" + "|" + "b";
    assert "a" + "|" + "b" == "a|b";
  }

  /** No fields at all read like one NULL (or empty) field. */
  lemma NoFieldsLikeOneEmptyField()
    ensures DedupPreimage([]) == DedupPreimage([Null])
  {
    assert FieldTexts([]) == [];
    assert FieldTexts([Null]) == [""];
  }

  /** The fields' order matters: when no field text contains `'|'`, swapping two
      fields whose texts differ changes the preimage. */
  lemma FieldOrderMatters(f: seq<Nullable<string>>, i: nat, j: nat)
    requires i < |f| && j < |f|
    requires FieldText(f[i]) != FieldText(f[j])
    requires FreeOf(FieldTexts(f), '|')
    ensures DedupPreimage(f) != DedupPreimage(f[i := f[j]][j := f[i]])
  {
    var g := f[i := f[j]][j := f[i]];
    assert FieldTexts(g)[i] != FieldTexts(f)[i];
    assert FreeOf(FieldTexts(g), '|') by {
      forall k | 0 <= k < |g| ensures '|' !in FieldTexts(g)[k] {
        var m := if k == i then j else if k == j then i else k;
        assert FieldTexts(g)[k] == FieldTexts(f)[m];
      }
    }
    DedupPreimageDeterminesTexts(f, g);
  }

  /** The smallest instance: `a|b` is not `b|a`. */
  lemma FieldOrderExample()
    ensures DedupPreimage([Value("a"), Value("b")]) != DedupPreimage([Value("b"), Value("a")])
  {
    var f: seq<Nullable<string>> := [Value("a"), Value("b")];
    assert FieldTexts(f) == ["a", "b"];
    assert f[0 := f[1]][1 := f[0]] == [Value("b"), Value("a")];
    FieldOrderMatters(f, 0, 1);
  }

  // ---------------------------------------------------------------------------
  // Moving average
  // ---------------------------------------------------------------------------

  /** One row of an IP's feature series: a day and the metric on that day. */
  datatype DayValue = DayValue(day: int, value: real)

  /** Index of the oldest row of the frame ending at row `i`: `max(0, i - (w - 1))`. */
  function WindowStart(i: nat, w: nat): nat
    requires w >= 1
  {
    if i + 1 >= w then i + 1 - w else 0
  }

  /** The frame `ROWS BETWEEN w - 1 PRECEDING AND CURRENT ROW` at row `i` of one
      IP's day-ordered series: the `w` most recent rows, fewer near the start. */
  function Window(series: seq<DayValue>, i: nat, w: nat): (win: seq<DayValue>)
    requires i < |series| && w >= 1
    ensures |win| == if i + 1 < w then i + 1 else w
    ensures |win| <= w && win[|win| - 1] == series[i]
    ensures forall k | 0 <= k < |win| :: win[k] == series[i + 1 - |win| + k]
  {
    series[WindowStart(i, w)..i + 1]
  }

  function Values(rows: seq<DayValue>): (vs: seq<real>)
    ensures |vs| == |rows|
    ensures forall k | 0 <= k < |rows| :: vs[k] == rows[k].value
  {
    seq(|rows|, k requires 0 <= k < |rows| => rows[k].value)
  }

  function Sum(xs: seq<real>): real
  {
    if |xs| == 0 then 0.0 else Sum(xs[..|xs| - 1]) + xs[|xs| - 1]
  }

  /** `AVG` over a non-empty frame. */
  function Mean(xs: seq<real>): real
    requires |xs| > 0
  {
    Sum(xs) / (|xs| as real)
  }

  /** The result of the window function: one average per row, or a rejected query
      when `windowDays - 1` is a negative frame offset. */
  datatype Frame = Averages(values: seq<real>) | InvalidFrame

  /** `AVG(metric) OVER (PARTITION BY ip ORDER BY log_date ROWS BETWEEN
      windowDays - 1 PRECEDING AND CURRENT ROW)` for one IP's series. */
  function MovingAverage(series: seq<DayValue>, windowDays: int): (r: Frame)
    ensures r.InvalidFrame? <==> windowDays < 1
    ensures r.Averages? ==> |r.values| == |series|
  {
    if windowDays < 1 then InvalidFrame
    else Averages(seq(|series|, i requires 0 <= i < |series| => Mean(Values(Window(series, i, windowDays)))))
  }

  lemma {:induction false} SumAppend(xs: seq<real>, x: real)
    ensures Sum(xs + [x]) == Sum(xs) + x
  {
    assert (xs + [x])[..|xs|] == xs;
  }

  lemma {:induction false} SumPrepend(x: real, xs: seq<real>)
    ensures Sum([x] + xs) == x + Sum(xs)
    decreases |xs|
  {
    if |xs| > 0 {
      var init := xs[..|xs| - 1];
      var last := xs[|xs| - 1];
      assert xs == init + [last];
      assert [x] + xs == ([x] + init) + [last];
      SumAppend([x] + init, last);
      SumPrepend(x, init);
      SumAppend(init, last);
    } else {
      assert [x] + xs == [] + [x];
      SumAppend([], x);
    }
  }

  /** If every value lies in `[lo, hi]`, so does the sum scaled by the count. */
  lemma {:induction false} SumBounds(xs: seq<real>, lo: real, hi: real)
    requires forall k | 0 <= k < |xs| :: lo <= xs[k] <= hi
    ensures lo * (|xs| as real) <= Sum(xs) <= hi * (|xs| as real)
  {
    if |xs| > 0 {
      var n := |xs| - 1;
      SumBounds(xs[..n], lo, hi);
      assert lo * (n as real) + lo == lo * ((n + 1) as real);
      assert hi * (n as real) + hi == hi * ((n + 1) as real);
    }
  }

  /** An average lies between the least and the greatest value averaged. */
  lemma MeanBounds(xs: seq<real>, lo: real, hi: real)
    requires |xs| > 0
    requires forall k | 0 <= k < |xs| :: lo <= xs[k] <= hi
    ensures lo <= Mean(xs) <= hi
  {
    SumBounds(xs, lo, hi);
    var n := |xs| as real;
    assert Mean(xs) * n == Sum(xs);
  }

  /** Every moving average lies within the range of the series' values. */
  lemma MovingAverageBounds(series: seq<DayValue>, w: int, lo: real, hi: real, i: nat)
    requires w >= 1 && i < |series|
    requires forall k | 0 <= k < |series| :: lo <= series[k].value <= hi
    ensures lo <= MovingAverage(series, w).values[i] <= hi
  {
    var win := Window(series, i, w);
    forall k | 0 <= k < |win| ensures lo <= Values(win)[k] <= hi {
      assert win[k] == series[i + 1 - |win| + k];
    }
    MeanBounds(Values(win), lo, hi);
  }

  /** A one-day window averages the current row alone. */
  lemma SingleDayWindow(series: seq<DayValue>, i: nat)
    requires i < |series|
    ensures MovingAverage(series, 1).values[i] == series[i].value
  {
    var vs := Values(Window(series, i, 1));
    assert vs == [] + [series[i].value];
    SumAppend([], series[i].value);
  }

  /** Sliding the frame one row ahead adds the new row and, once the frame is full,
      drops the row that falls out of it. */
  lemma WindowSumSlides(series: seq<DayValue>, w: nat, i: nat)
    requires w >= 1 && i + 1 < |series|
    ensures Sum(Values(Window(series, i + 1, w)))
         == Sum(Values(Window(series, i, w))) + series[i + 1].value
          - (if i + 1 >= w then series[i + 1 - w].value else 0.0)
  {
    var old_ := Values(Window(series, i, w));
    var new_ := Values(Window(series, i + 1, w));
    var x := series[i + 1].value;
    if i + 1 < w {
      assert new_ == old_ + [x];
      SumAppend(old_, x);
    } else {
      var dropped := series[i + 1 - w].value;
      assert old_ == [dropped] + old_[1..];
      assert new_ == old_[1..] + [x];
      SumPrepend(dropped, old_[1..]);
      SumAppend(old_[1..], x);
    }
  }

  /** Rows of a series on consecutive days, one row per day. */
  predicate ConsecutiveDays(series: seq<DayValue>)
  {
    forall k | 0 <= k < |series| - 1 :: series[k + 1].day == series[k].day + 1
  }

  lemma {:induction false} ConsecutiveDayOffset(series: seq<DayValue>, j: nat)
    requires ConsecutiveDays(series) && j < |series|
    ensures series[j].day == series[0].day + j
  {
    if j > 0 {
      ConsecutiveDayOffset(series, j - 1);
    }
  }

  /** With one row per consecutive day, every day in the frame lies within the last
      `w` calendar days ending at row `i`. */
  lemma ConsecutiveWindowSpansDays(series: seq<DayValue>, i: nat, w: nat)
    requires ConsecutiveDays(series) && i < |series| && w >= 1
    ensures forall k | 0 <= k < |Window(series, i, w)| ::
      series[i].day - w < Window(series, i, w)[k].day <= series[i].day
  {
    var win := Window(series, i, w);
    forall k | 0 <= k < |win| ensures series[i].day - w < win[k].day <= series[i].day {
      var j := i + 1 - |win| + k;
      ConsecutiveDayOffset(series, j);
      ConsecutiveDayOffset(series, i);
    }
  }

  /** The frame counts rows, not days: when an IP has a gap, a seven-row frame on
      day 10 still reaches back to day 1. */
  lemma FrameCountsRowsNotDays()
    ensures Window([DayValue(1, 1.0), DayValue(10, 3.0)], 1, 7)[0].day == 1
    ensures MovingAverage([DayValue(1, 1.0), DayValue(10, 3.0)], 7).values[1] == 2.0
  {
    var s := [DayValue(1, 1.0), DayValue(10, 3.0)];
    var vs := Values(Window(s, 1, 7));
    assert vs == [1.0] + [3.0];
    SumAppend([1.0], 3.0);
    assert [1.0] == [] + [1.0];
    SumAppend([], 1.0);
  }

  // ---------------------------------------------------------------------------
  // Risk tiers
  // ---------------------------------------------------------------------------

  datatype RiskTier = Normal | LowRisk | MediumRisk | HighRisk

  function RiskLabel(t: RiskTier): string
  {
    match t
    case Normal => "normal"
    case LowRisk => "low_risk"
    case MediumRisk => "medium_risk"
    case HighRisk => "high_risk"
  }

  function RiskRank(t: RiskTier): nat
  {
    match t
    case Normal => 0
    case LowRisk => 1
    case MediumRisk => 2
    case HighRisk => 3
  }

  /** The `CASE` over the anomaly score: strict `>` against the high, medium and low
      thresholds in that order, first match wins, `'normal'` otherwise. */
  function RiskLevel(c: Config, score: Nullable<real>): RiskTier
  {
    if IsTrue(Greater(score, c.highRiskThreshold)) then HighRisk
    else if IsTrue(Greater(score, c.mediumRiskThreshold)) then MediumRisk
    else if IsTrue(Greater(score, c.lowRiskThreshold)) then LowRisk
    else Normal
  }

  /** The four labels are distinct, so the tier can be read back from its label. */
  lemma RiskLabelsDistinct(s: RiskTier, t: RiskTier)
    ensures RiskLabel(s) == RiskLabel(t) <==> s == t
  {
  }

  /** A NULL score matches no `WHEN` and is `'normal'`. */
  lemma NullScoreIsNormal(c: Config)
    ensures RiskLevel(c, Null) == Normal
  {
  }

  /** With ordered thresholds each tier is the half-open band of scores above its
      cutoff and up to the next one; a score equal to a cutoff is in the lower tier. */
  lemma RiskBands(c: Config, s: real)
    requires ThresholdsIncreasing(c)
    ensures RiskLevel(c, Value(s)) == HighRisk <==> c.highRiskThreshold < s
    ensures RiskLevel(c, Value(s)) == MediumRisk <==> c.mediumRiskThreshold < s <= c.highRiskThreshold
    ensures RiskLevel(c, Value(s)) == LowRisk <==> c.lowRiskThreshold < s <= c.mediumRiskThreshold
    ensures RiskLevel(c, Value(s)) == Normal <==> s <= c.lowRiskThreshold
  {
  }

  /** Raising the score never lowers the tier. This holds for any thresholds, since
      the comparisons are checked from the highest tier down. */
  lemma RiskMonotone(c: Config, s1: real, s2: real)
    requires s1 <= s2
    ensures RiskRank(RiskLevel(c, Value(s1))) <= RiskRank(RiskLevel(c, Value(s2)))
  {
  }

  /** How many of `cutoffs` the score is strictly above. */
  function CountExceeded(s: real, cutoffs: seq<real>): nat
  {
    if |cutoffs| == 0 then 0
    else (if s > cutoffs[0] then 1 else 0) + CountExceeded(s, cutoffs[1..])
  }

  /** An independent reading of the tiers: with ordered thresholds the tier's rank
      is the number of thresholds the score exceeds. */
  lemma RiskRankCountsThresholds(c: Config, s: real)
    requires ThresholdsIncreasing(c)
    ensures RiskRank(RiskLevel(c, Value(s)))
         == CountExceeded(s, [c.lowRiskThreshold, c.mediumRiskThreshold, c.highRiskThreshold])
  {
    var lo, mid, hi := c.lowRiskThreshold, c.mediumRiskThreshold, c.highRiskThreshold;
    assert [lo, mid, hi][1..] == [mid, hi] && [mid, hi][1..] == [hi] && [hi][1..] == [];
    assert CountExceeded(s, [hi]) == if s > hi then 1 else 0;
    assert CountExceeded(s, [mid, hi]) == (if s > mid then 1 else 0) + CountExceeded(s, [hi]);
  }

  /** With ordered thresholds every tier is produced by some score. */
  lemma RiskTiersReachable(c: Config)
    requires ThresholdsIncreasing(c)
    ensures exists s :: RiskLevel(c, Value(s)) == HighRisk
    ensures exists s :: RiskLevel(c, Value(s)) == MediumRisk
    ensures exists s :: RiskLevel(c, Value(s)) == LowRisk
    ensures exists s :: RiskLevel(c, Value(s)) == Normal
  {
    assert RiskLevel(c, Value(c.highRiskThreshold + 1.0)) == HighRisk;
    assert RiskLevel(c, Value(c.highRiskThreshold)) == MediumRisk;
    assert RiskLevel(c, Value(c.mediumRiskThreshold)) == LowRisk;
    assert RiskLevel(c, Value(c.lowRiskThreshold)) == Normal;
  }

  /** Why the ordering matters: if the medium cutoff is not below the high one,
      no score is ever `'medium_risk'`. */
  lemma MisorderedThresholdsHideMedium(c: Config, s: real)
    requires c.mediumRiskThreshold >= c.highRiskThreshold
    ensures RiskLevel(c, Value(s)) != MediumRisk
  {
  }

  /** The shipped cutoffs 0.5, 0.3 and 0.1 at and around their boundaries. */
  lemma DefaultRiskExamples()
    ensures RiskLevel(Defaults, Value(0.51)) == HighRisk
    ensures RiskLevel(Defaults, Value(0.5)) == MediumRisk
    ensures RiskLevel(Defaults, Value(0.3)) == LowRisk
    ensures RiskLevel(Defaults, Value(0.1)) == Normal
    ensures RiskLevel(Defaults, Value(0.0)) == Normal
  {
  }

  // ---------------------------------------------------------------------------
  // Size categories
  // ---------------------------------------------------------------------------

  datatype SizeCategory = Tiny | Small | Medium | Large | XLarge

  function SizeLabel(s: SizeCategory): string
  {
    match s
    case Tiny => "tiny"
    case Small => "small"
    case Medium => "medium"
    case Large => "large"
    case XLarge => "xlarge"
  }

  function SizeRank(s: SizeCategory): nat
  {
    match s
    case Tiny => 0
    case Small => 1
    case Medium => 2
    case Large => 3
    case XLarge => 4
  }

  /** The `CASE` over the response size: strict `<` against the four boundaries in
      increasing order, first match wins, `'xlarge'` otherwise. */
  function SizeCategoryOf(c: Config, size: Nullable<int>): SizeCategory
  {
    var b := c.sizeCategories;
    if IsTrue(Less(size, b.tiny)) then Tiny
    else if IsTrue(Less(size, b.small)) then Small
    else if IsTrue(Less(size, b.medium)) then Medium
    else if IsTrue(Less(size, b.large)) then Large
    else XLarge
  }

  lemma SizeLabelsDistinct(s: SizeCategory, t: SizeCategory)
    ensures SizeLabel(s) == SizeLabel(t) <==> s == t
  {
  }

  /** A NULL size matches no `WHEN` and falls to the `ELSE` branch. */
  lemma NullSizeIsXLarge(c: Config)
    ensures SizeCategoryOf(c, Null) == XLarge
  {
  }

  /** With increasing boundaries each category is a half-open byte range. */
  lemma SizeBands(c: Config, n: int)
    requires BoundariesStrictlyIncreasing(c.sizeCategories)
    ensures SizeCategoryOf(c, Value(n)) == Tiny <==> n < c.sizeCategories.tiny
    ensures SizeCategoryOf(c, Value(n)) == Small <==> c.sizeCategories.tiny <= n < c.sizeCategories.small
    ensures SizeCategoryOf(c, Value(n)) == Medium <==> c.sizeCategories.small <= n < c.sizeCategories.medium
    ensures SizeCategoryOf(c, Value(n)) == Large <==> c.sizeCategories.medium <= n < c.sizeCategories.large
    ensures SizeCategoryOf(c, Value(n)) == XLarge <==> c.sizeCategories.large <= n
  {
  }

  /** How many of `bounds` the size is at or above. */
  function CountReached(n: int, bounds: seq<int>): nat
  {
    if |bounds| == 0 then 0
    else (if n >= bounds[0] then 1 else 0) + CountReached(n, bounds[1..])
  }

  /** An independent reading of the categories: with increasing boundaries the
      category's rank is the number of boundaries the size reaches. */
  lemma SizeRankCountsBoundaries(c: Config, n: int)
    requires BoundariesStrictlyIncreasing(c.sizeCategories)
    ensures SizeRank(SizeCategoryOf(c, Value(n)))
         == CountReached(n, [c.sizeCategories.tiny, c.sizeCategories.small,
                             c.sizeCategories.medium, c.sizeCategories.large])
  {
    var b := c.sizeCategories;
    var t, sm, md, lg := b.tiny, b.small, b.medium, b.large;
    assert [t, sm, md, lg][1..] == [sm, md, lg] && [sm, md, lg][1..] == [md, lg];
    assert [md, lg][1..] == [lg] && [lg][1..] == [];
    assert CountReached(n, [lg]) == if n >= lg then 1 else 0;
    assert CountReached(n, [md, lg]) == (if n >= md then 1 else 0) + CountReached(n, [lg]);
    assert CountReached(n, [sm, md, lg]) == (if n >= sm then 1 else 0) + CountReached(n, [md, lg]);
  }

  /** A larger response is never in a smaller category, for any boundaries. */
  lemma SizeMonotone(c: Config, n1: int, n2: int)
    requires n1 <= n2
    ensures SizeRank(SizeCategoryOf(c, Value(n1))) <= SizeRank(SizeCategoryOf(c, Value(n2)))
  {
  }

  /** The shipped boundaries: 1023 bytes is tiny, 1024 small, 1 MiB and more xlarge. */
  lemma DefaultSizeExamples(n: int)
    requires n >= 1048576
    ensures SizeCategoryOf(Defaults, Value(1023)) == Tiny
    ensures SizeCategoryOf(Defaults, Value(1024)) == Small
    ensures SizeCategoryOf(Defaults, Value(10240)) == Medium
    ensures SizeCategoryOf(Defaults, Value(1048575)) == Large
    ensures SizeCategoryOf(Defaults, Value(n)) == XLarge
  {
  }

  // ---------------------------------------------------------------------------
  // Cache hits
  // ---------------------------------------------------------------------------

  /** `CASE WHEN result_type IN (<hit labels>) THEN TRUE ELSE FALSE END`. Each label
      is written between single quotes unescaped, so the list reads back as the
      labels themselves when `Constants.LabelsQuotable` holds. */
  function IsCacheHit(c: Config, resultType: Nullable<string>): (hit: bool)
    ensures hit <==> (resultType.Value?
      && exists k | 0 <= k < |c.cacheHitTypes| :: c.cacheHitTypes[k] == resultType.v)
  {
    IsTrue(InList(resultType, c.cacheHitTypes))
  }

  /** The shipped labels: an exact, case-sensitive match is needed. */
  lemma DefaultCacheHitExamples()
    ensures IsCacheHit(Defaults, Value("Hit"))
    ensures IsCacheHit(Defaults, Value("RefreshHit"))
    ensures IsCacheHit(Defaults, Value("LimitExceeded-Hit"))
    ensures IsCacheHit(Defaults, Value("CapacityExceeded-Hit"))
    ensures !IsCacheHit(Defaults, Value("Miss"))
    ensures !IsCacheHit(Defaults, Value("hit"))
    ensures !IsCacheHit(Defaults, Null)
  {
    assert Defaults.cacheHitTypes[0] == "Hit";
    assert Defaults.cacheHitTypes[1] == "RefreshHit";
    assert Defaults.cacheHitTypes[2] == "LimitExceeded-Hit";
    assert Defaults.cacheHitTypes[3] == "CapacityExceeded-Hit";
  }

  // ---------------------------------------------------------------------------
  // Static content filter
  // ---------------------------------------------------------------------------

  /** The start-anchored content-type pattern: some alternative is a prefix. */
  predicate IsStaticContentType(c: Config, contentType: string)
  {
    exists p | p in c.staticContentTypePrefixes :: p <= contentType
  }

  /** What may follow the extension: nothing, or `?` and then any characters but a
      newline, up to the end of the string. */
  predicate QueryTail(t: string)
  {
    t == "" || (t[0] == '?' && '\n' !in t[1..])
  }

  /** The URI pattern matches at position `i`: a `.` there, then extension `e`, then
      a query tail. */
  predicate ExtensionAt(uri: string, i: nat, e: string)
  {
    && i < |uri|
    && uri[i] == '.'
    && e <= uri[i + 1..]
    && QueryTail(uri[i + 1 + |e|..])
  }

  /** The URI-extension pattern matches somewhere in `uri`. */
  predicate HasStaticExtension(c: Config, uri: string)
  {
    exists i, e | 0 <= i < |uri| && e in c.staticFileExtensions :: ExtensionAt(uri, i, e)
  }

  /** The `WHERE` condition: keep a record unless its content type (NULL read as
      `''`) or its URI stem (likewise) looks static. */
  function KeepsRecord(c: Config, contentType: Nullable<string>, uriStem: Nullable<string>): bool
  {
    !IsStaticContentType(c, IfNull(contentType, "")) && !HasStaticExtension(c, IfNull(uriStem, ""))
  }

  /** A NULL content type or URI stem is filtered exactly as an empty one. */
  lemma NullFieldsFilterAsEmpty(c: Config, contentType: Nullable<string>, uriStem: Nullable<string>)
    ensures KeepsRecord(c, Null, uriStem) == KeepsRecord(c, Value(""), uriStem)
    ensures KeepsRecord(c, contentType, Null) == KeepsRecord(c, contentType, Value(""))
  {
  }

  /** Matching a start-anchored pattern survives appending text, such as the
      parameters of `text/css; charset=utf-8`. */
  lemma StaticTypeKeepsParameters(c: Config, contentType: string, suffix: string)
    requires IsStaticContentType(c, contentType)
    ensures IsStaticContentType(c, contentType + suffix)
  {
    var p :| p in c.staticContentTypePrefixes && p <= contentType;
    assert p <= contentType + suffix;
  }

  /** A path ending in `.e`, for a listed extension `e`, matches with or without a
      query string. */
  lemma StaticPathWithQuery(c: Config, path: string, e: string, query: string)
    requires e in c.staticFileExtensions
    requires '\n' !in query
    ensures HasStaticExtension(c, path + "." + e)
    ensures HasStaticExtension(c, path + "." + e + "?" + query)
  {
    var i := |path|;
    var u1 := path + "." + e;
    var u2 := path + "." + e + "?" + query;
    assert u1[i + 1..] == e;
    assert u1[i + 1 + |e|..] == "";
    assert ExtensionAt(u1, i, e);
    assert u2[i + 1..] == e + "?" + query;
    assert u2[i + 1 + |e|..] == "?" + query;
    assert ExtensionAt(u2, i, e);
  }

  /** A match at `i` cuts the URI into the path before the `.`, the extension and
      its query tail. */
  lemma ExtensionSplits(uri: string, i: nat, e: string)
    requires ExtensionAt(uri, i, e)
    ensures uri == uri[..i] + "." + e + uri[i + 1 + |e|..]
  {
    var tail := uri[i + 1 + |e|..];
    assert uri[i + 1..] == e + tail;
    assert uri == uri[..i] + [uri[i]] + uri[i + 1..];
  }

  /** Conversely, only such URIs match: a match means the URI is some path, a `.`,
      a listed extension, and then either nothing or `?` and a newline-free query. */
  lemma StaticExtensionShape(c: Config, uri: string)
    requires HasStaticExtension(c, uri)
    ensures exists path, e, q ::
              (e in c.staticFileExtensions && '\n' !in q
               && (uri == path + "." + e || uri == path + "." + e + "?" + q))
  {
    var i, e :| 0 <= i < |uri| && e in c.staticFileExtensions && ExtensionAt(uri, i, e);
    ExtensionSplits(uri, i, e);
    var path, tail := uri[..i], uri[i + 1 + |e|..];
    if tail == "" {
      assert uri == path + "." + e + "";
      assert (e in c.staticFileExtensions && '\n' !in ""
              && (uri == path + "." + e || uri == path + "." + e + "?" + ""));
    } else {
      var q := tail[1..];
      assert tail == "?" + q;
      assert (e in c.staticFileExtensions && '\n' !in q
              && (uri == path + "." + e || uri == path + "." + e + "?" + q));
    }
  }

  /** The shape of a static URI stem: a path, `.`, a listed extension, and then
      either nothing or `?` and a newline-free query. */
  ghost predicate StaticUriShape(c: Config, uri: string)
  {
    exists path, e, q ::
      (e in c.staticFileExtensions && '\n' !in q
       && (uri == path + "." + e || uri == path + "." + e + "?" + q))
  }

  /** The filter in terms of the patterns' shapes: a record is kept iff no listed
      content-type prefix starts its content type and its URI stem does not have
      the static shape. */
  lemma FilterKeepsByShape(c: Config, contentType: string, uriStem: string)
    ensures KeepsRecord(c, Value(contentType), Value(uriStem))
        <==> ((forall p | p in c.staticContentTypePrefixes :: !(p <= contentType))
              && !StaticUriShape(c, uriStem))
  {
    if StaticUriShape(c, uriStem) {
      var path, e, q :|
        (e in c.staticFileExtensions && '\n' !in q
         && (uriStem == path + "." + e || uriStem == path + "." + e + "?" + q));
      StaticPathWithQuery(c, path, e, q);
    }
    if HasStaticExtension(c, uriStem) {
      StaticExtensionShape(c, uriStem);
    }
  }

  /** Without a `.` no extension can match. */
  lemma NoDotNoExtension(c: Config, uri: string)
    requires '.' !in uri
    ensures !HasStaticExtension(c, uri)
  {
  }

  /** A record with an empty content type and URI stem, or NULL ones, is kept. */
  lemma EmptyRecordKept(c: Config)
    requires PatternsNonEmpty(c)
    ensures KeepsRecord(c, Null, Null)
    ensures KeepsRecord(c, Value(""), Value(""))
  {
    forall k | 0 <= k < |c.staticContentTypePrefixes| ensures !(c.staticContentTypePrefixes[k] <= "") {
      assert |c.staticContentTypePrefixes[k]| > 0;
    }
  }

  /** The shipped content-type pattern matches an image type. */
  lemma DefaultImageIsStatic()
    ensures IsStaticContentType(Defaults, "image/png")
  {
    assert "image/" in Defaults.staticContentTypePrefixes;
    assert "image/" <= "image/png";
  }

  /** The shipped content-type pattern matches a style sheet, with or without
      parameters after the type. */
  lemma DefaultStyleSheetIsStatic()
    ensures IsStaticContentType(Defaults, "text/css")
    ensures IsStaticContentType(Defaults, "text/css; charset=utf-8")
  {
    assert "text/css" in Defaults.staticContentTypePrefixes;
    assert "text/css" <= "text/css; charset=utf-8";
  }

  /** The shipped content-type pattern does not match JSON, although it shares the
      `application/` start with three alternatives. */
  lemma DefaultJsonIsNotStatic()
    ensures !IsStaticContentType(Defaults, "application/json")
  {
    var t := "application/json";
    var ps := Defaults.staticContentTypePrefixes;
    PrefixMismatch(ps[0], t, 0);
    PrefixMismatch(ps[1], t, 0);
    PrefixMismatch(ps[2], t, 13);
    PrefixMismatch(ps[3], t, 12);
    PrefixMismatch(ps[4], t, 12);
    PrefixMismatch(ps[5], t, 0);
    PrefixMismatch(ps[6], t, 0);
  }

  /** The shipped extension pattern matches a style sheet path. */
  lemma DefaultStyleSheetMatches()
    ensures HasStaticExtension(Defaults, "/a/b.css")
  {
    var u := "/a/b.css";
    assert "css" in Defaults.staticFileExtensions;
    assert u[5..] == "css" && u[8..] == "";
    assert ExtensionAt(u, 4, "css");
  }

  /** The shipped extension pattern matches a script with a query string. */
  lemma DefaultScriptWithQueryMatches()
    ensures HasStaticExtension(Defaults, "/x.js?v=1")
  {
    var u := "/x.js?v=1";
    assert "js" in Defaults.staticFileExtensions;
    assert u[3..] == "js?v=1" && u[5..] == "?v=1";
    assert ExtensionAt(u, 2, "js");
  }

  /** The shipped extension pattern does not match an API path. */
  lemma DefaultApiPathDoesNotMatch()
    ensures !HasStaticExtension(Defaults, "/api/data")
  {
    NoDotNoExtension(Defaults, "/api/data");
  }

  /** An image is dropped; a JSON API call is kept. */
  lemma DefaultFilterExamples()
    ensures !KeepsRecord(Defaults, Value("image/png"), Value("/index.html"))
    ensures KeepsRecord(Defaults, Value("application/json"), Value("/api/data"))
  {
    DefaultImageIsStatic();
    DefaultJsonIsNotStatic();
    DefaultApiPathDoesNotMatch();
  }

  // ---------------------------------------------------------------------------
  // Tags
  // ---------------------------------------------------------------------------

  /** The layer tag first, then the additional tags in their order. */
  function GenerateTags(layer: string, additionalTags: seq<string>): (tags: seq<string>)
    ensures |tags| == 1 + |additionalTags|
    ensures tags[0] == layer
    ensures forall k | 0 <= k < |additionalTags| :: tags[k + 1] == additionalTags[k]
  {
    [layer] + additionalTags
  }

  /** Nothing is dropped or merged: the tags are the layer plus the additional tags,
      duplicates included. */
  lemma TagsKeepEverything(layer: string, additionalTags: seq<string>)
    ensures multiset(GenerateTags(layer, additionalTags)) == multiset{layer} + multiset(additionalTags)
    ensures forall t :: t in GenerateTags(layer, additionalTags) <==> t == layer || t in additionalTags
  {
  }

  /** Leaving out the additional tags gives the layer alone. */
  lemma DefaultAdditionalTags(layer: string)
    ensures GenerateTags(layer, []) == [layer]
  {
  }
}
