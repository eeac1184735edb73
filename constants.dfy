/** The configuration values that parameterise the SQL fragments, as one record
    passed to each helper that reads a constant, with the invariants the rules
    depend on. */
module Constants {

  /** Upper byte bounds of the size categories (exclusive). */
  datatype SizeBoundaries = SizeBoundaries(tiny: int, small: int, medium: int, large: int)

  /** The constants of the project. The two static-content regular expressions are
      held as their lists of alternatives: `staticContentTypePrefixes` are the
      alternatives of the start-anchored content-type pattern, `staticFileExtensions`
      those of the extension group of the URI pattern. */
  datatype Config = Config(
    reloadDays: int,
    backfillDays: int,
    dataRetentionDays: int,
    botContaminationRate: real,
    highRiskThreshold: real,
    mediumRiskThreshold: real,
    lowRiskThreshold: real,
    maxDailyRequestsPerIp: int,
    maxRpsThreshold: int,
    minRequestsForAnalysis: int,
    staticContentTypePrefixes: seq<string>,
    staticFileExtensions: seq<string>,
    cacheHitTypes: seq<string>,
    sizeCategories: SizeBoundaries)

  /** Reload window within backfill window within retention horizon. */
  predicate WindowsNested(c: Config)
  {
    0 < c.reloadDays <= c.backfillDays <= c.dataRetentionDays
  }

  /** The risk cutoffs are strictly increasing. */
  predicate ThresholdsIncreasing(c: Config)
  {
    c.lowRiskThreshold < c.mediumRiskThreshold < c.highRiskThreshold
  }

  /** The risk cutoffs are strictly increasing fractions. */
  predicate ThresholdsOrdered(c: Config)
  {
    0.0 < c.lowRiskThreshold && ThresholdsIncreasing(c) && c.highRiskThreshold < 1.0
  }

  /** The expected contamination rate is a proper fraction. */
  predicate RateIsFraction(c: Config)
  {
    0.0 < c.botContaminationRate < 1.0
  }

  /** The minimum request count for analysis does not exceed the daily cap. */
  predicate RequestLimitsConsistent(c: Config)
  {
    0 < c.minRequestsForAnalysis <= c.maxDailyRequestsPerIp && 0 < c.maxRpsThreshold
  }

  /** No alternative of either static pattern is empty (an empty one would match
      every string). */
  predicate PatternsNonEmpty(c: Config)
  {
    && |c.staticContentTypePrefixes| > 0
    && |c.staticFileExtensions| > 0
    && (forall k | 0 <= k < |c.staticContentTypePrefixes| :: c.staticContentTypePrefixes[k] != "")
    && (forall k | 0 <= k < |c.staticFileExtensions| :: c.staticFileExtensions[k] != "")
  }

  /** There is at least one cache-hit label (an empty `IN ()` list is not valid SQL). */
  predicate HasHitLabels(c: Config)
  {
    |c.cacheHitTypes| > 0
  }

  /** The cache-hit labels are pairwise distinct. */
  predicate LabelsDistinct(c: Config)
  {
    forall i, j | 0 <= i < j < |c.cacheHitTypes| :: c.cacheHitTypes[i] != c.cacheHitTypes[j]
  }

  /** Every cache-hit label can be written between single quotes as is: it holds no
      quote, which would end the literal, and no backslash, which would start an
      escape sequence. */
  predicate LabelsQuotable(c: Config)
  {
    forall k | 0 <= k < |c.cacheHitTypes| :: '\'' !in c.cacheHitTypes[k] && '\\' !in c.cacheHitTypes[k]
  }

  /** The size boundaries are strictly increasing. */
  predicate BoundariesStrictlyIncreasing(b: SizeBoundaries)
  {
    b.tiny < b.small < b.medium < b.large
  }

  /** The size boundaries are positive and strictly increasing. */
  predicate BoundariesIncreasing(b: SizeBoundaries)
  {
    0 < b.tiny && BoundariesStrictlyIncreasing(b)
  }

  predicate Valid(c: Config)
  {
    && WindowsNested(c)
    && ThresholdsOrdered(c)
    && RateIsFraction(c)
    && RequestLimitsConsistent(c)
    && PatternsNonEmpty(c)
    && HasHitLabels(c)
    && LabelsDistinct(c)
    && LabelsQuotable(c)
    && BoundariesIncreasing(c.sizeCategories)
  }

  /** The values the project ships with. */
  const Defaults: Config := Config(
    reloadDays := 3,
    backfillDays := 7,
    dataRetentionDays := 90,
    botContaminationRate := 0.02,
    highRiskThreshold := 0.5,
    mediumRiskThreshold := 0.3,
    lowRiskThreshold := 0.1,
    maxDailyRequestsPerIp := 1000000,
    maxRpsThreshold := 10000,
    minRequestsForAnalysis := 10,
    staticContentTypePrefixes := [
      "image/", "text/css", "application/javascript", "application/x-javascript",
      "application/font", "font/", "image/vnd.microsoft.icon"],
    staticFileExtensions := [
      "jpg", "jpeg", "png", "gif", "ico", "css", "js", "woff", "woff2", "ttf", "eot", "svg"],
    cacheHitTypes := ["Hit", "RefreshHit", "LimitExceeded-Hit", "CapacityExceeded-Hit"],
    sizeCategories := SizeBoundaries(1024, 10240, 102400, 1048576))

  lemma DefaultWindowsNested()
    ensures WindowsNested(Defaults)
    ensures Defaults.reloadDays == 3 && Defaults.backfillDays == 7 && Defaults.dataRetentionDays == 90
  {
  }

  lemma DefaultThresholdsOrdered()
    ensures ThresholdsOrdered(Defaults)
  {
  }

  lemma DefaultRateIsFraction()
    ensures RateIsFraction(Defaults)
  {
  }

  lemma DefaultRequestLimitsConsistent()
    ensures RequestLimitsConsistent(Defaults)
  {
  }

  lemma DefaultPatternsNonEmpty()
    ensures PatternsNonEmpty(Defaults)
  {
  }

  lemma DefaultLabelsDistinct()
    ensures HasHitLabels(Defaults) && LabelsDistinct(Defaults)
    ensures |Defaults.cacheHitTypes| == 4
  {
  }

  lemma DefaultLabelsQuotable()
    ensures LabelsQuotable(Defaults)
  {
  }

  lemma DefaultBoundariesIncreasing()
    ensures BoundariesIncreasing(Defaults.sizeCategories)
  {
  }

  /** The shipped configuration satisfies every invariant. */
  lemma DefaultsValid()
    ensures Valid(Defaults)
  {
    DefaultWindowsNested();
    DefaultThresholdsOrdered();
    DefaultRateIsFraction();
    DefaultRequestLimitsConsistent();
    DefaultPatternsNonEmpty();
    DefaultLabelsDistinct();
    DefaultLabelsQuotable();
    DefaultBoundariesIncreasing();
  }
}
