# SQL-fragment helpers of a CDN log-analytics pipeline, modelled in Dafny

The modelled repository generates the SQL fragments that a log-analytics pipeline
runs over CloudFront-style edge logs. It deduplicates records, filters out static
assets, derives per-IP daily features and sorts anomaly scores into risk tiers.
Each generator in `includes/helpers.js` produces text. This model states what that
text *means* when the warehouse evaluates it. The constants of
`includes/constants.js` are one configuration record with invariants.

Modules:

- `Sql` (sql.dfy): nullable values, `IFNULL`, and the three-valued comparisons the
  fragments use. A `CASE WHEN` branch or a `WHERE` filter is taken only when its
  condition is TRUE.
- `Text` (text.dfy): `Join`, which is what `ARRAY_TO_STRING` does, and its inverse
  `Split`, with the round trip proved.
- `Constants` (constants.dfy): the `Config` record, its invariants (`Valid`), the
  shipped values (`Defaults`) and proofs that the shipped values satisfy them.
  `Defaults` is a constant holding the literals of includes/constants.js:6-34 field
  by field: 3, 7 and 90 days; rate 0.02; cutoffs 0.5, 0.3 and 0.1; limits 1000000,
  10000 and 10; the seven content-type and twelve extension alternatives of the two
  patterns; the four cache-hit labels; size boundaries 1024, 10240, 102400 and
  1048576.
- `Helpers` (helpers.dfy): one section per generator. Every helper that reads a
  constant takes the configuration as a parameter, and the lemmas about the shipped values use
  `Defaults`.

Design points:

- SQL NULL is modelled. A NULL score matches no `WHEN` and is `'normal'`. A NULL
  response size falls through to `ELSE 'xlarge'`. A NULL result type is not a
  cache hit. An incremental date filter drops a row whose date is NULL.
- The content-type pattern is anchored at the start, so it is a prefix test over
  its seven alternatives. The URI pattern is `.`, then a listed extension, then
  either the end of the string or `?` and the rest of the string. That rest may
  not contain a newline, because `.` excludes newlines and `$` means end of text in
  the warehouse's regular-expression dialect (RE2). Both patterns are case-sensitive.
- The risk and size classifiers are monotone for any thresholds. Their comparisons
  are strict and checked from one end first. The ordering invariant is what makes
  every tier reachable and each tier a band; `MisorderedThresholdsHideMedium` shows
  what goes wrong without it.
- The dedup key is `digest(preimage)`. `digest` is a function parameter standing
  for `TO_HEX(SHA256(CAST(_ AS BYTES)))`. Only the fact that it is a function is
  used.

Facts about the code that the model keeps:

- `movingAverage` uses a `ROWS` frame, so it counts rows, not calendar days. If an
  IP has a day with no row, the frame can reach further back than `windowDays`
  days (`FrameCountsRowsNotDays`). When the IP has one row per consecutive day, the
  frame's days lie within the last `windowDays` calendar days
  (`ConsecutiveWindowSpansDays`).
- The code has no check that rejects a reload window longer than the backfill
  window. The invariants are stated as `Constants.Valid` and proved of the shipped
  values.
- `generateDedupKey` takes any list of fields, so `DedupKey` does too.
- A score equal to a threshold lands in the lower tier, because the comparison is
  strict.

## Model

| member | source | states |
|---|---|---|
| `Helpers.GenerateDateFilter` | includes/helpers.js:13-18 | defines the fragment: no lower bound for a full run, `OnOrAfter(today - days)` for an incremental one (`today` stands for `CURRENT_DATE()`) |
| `Helpers.Admits` | includes/helpers.js:17 | defines what the fragment keeps: every row without a bound; with a bound, a row whose date is non-NULL and at least the bound |
| `Helpers.FullRunHasNoBound` | includes/helpers.js:14-16 | a non-incremental run yields no lower bound and admits every day, NULL included |
| `Helpers.DateFilterAdmits` | includes/helpers.js:13-18 | a non-NULL day passes iff the run is not incremental or `day >= today - days` |
| `Helpers.DateFilterNullDay` | includes/helpers.js:17 | a NULL date passes iff the run is not incremental |
| `Helpers.ReloadWindowExample` | includes/helpers.js:17 | with `days = 3`, `today - 3` and `today` pass and `today - 4` does not (2024-12-20 admits 2024-12-17 onward) |
| `Helpers.LongerLookBackAdmitsMore` | includes/helpers.js:17 | everything a shorter look-back admits, a longer one admits too |
| `Helpers.ConfiguredWindowsNest` | includes/constants.js:6-8 | under the nesting invariant the reload window is within the backfill window, which is within the retention horizon |
| `Helpers.FieldText` | includes/helpers.js:25 | defines a field's text: `IFNULL(CAST(f AS STRING), '')`, with NULL read as `''` |
| `Helpers.FieldTexts` | includes/helpers.js:25 | the texts of the fields, one per field, in field order |
| `Helpers.DedupPreimage` | includes/helpers.js:25-26 | defines the hashed string: the field texts joined with the bar character (`ARRAY_TO_STRING`) |
| `Helpers.DedupKey` | includes/helpers.js:24-27 | defines the key: the digest of the preimage (`digest` stands for `TO_HEX(SHA256(CAST(_ AS BYTES)))`) |
| `Helpers.DedupKeyDependsOnTexts` | includes/helpers.js:24-27 | tuples whose fields agree once NULL is read as `''` get equal keys for every digest |
| `Helpers.NullFieldLikeEmpty` | includes/helpers.js:25 | a NULL field and an empty field give the same key |
| `Helpers.DedupSlots` | includes/helpers.js:25-26 | if no field text contains the bar separator, splitting the preimage at the bar separator gives back exactly the field texts, one slot per field, in order |
| `Helpers.DedupPreimageDeterminesTexts` | includes/helpers.js:26 | under the same condition two non-empty tuples share a preimage iff their field texts are equal |
| `Helpers.SeparatorInFieldCollides` | includes/helpers.js:26 | without that condition distinct tuples collide: one field `a`, bar, `b` gives the same preimage as fields `a` and `b` |
| `Helpers.NoFieldsLikeOneEmptyField` | includes/helpers.js:25-26 | an empty field list gives the same preimage as a single NULL field |
| `Helpers.FieldOrderMatters` | includes/helpers.js:25-26 | when no field text contains the bar separator, swapping two fields whose texts differ changes the preimage |
| `Helpers.FieldOrderExample` | includes/helpers.js:25-26 | fields `a`, `b` and fields `b`, `a` give different preimages |
| `Text.SplitJoin` | includes/helpers.js:26 | splitting undoes `ARRAY_TO_STRING` when no part contains the separator |
| `Text.JoinInjective` | includes/helpers.js:26 | under the same condition joining is injective on non-empty lists |
| `Helpers.Window` | includes/helpers.js:57-61 | the frame at row `i` has `min(i+1, w)` rows, ends at row `i`, and holds rows `max(0, i-(w-1))..i` in order |
| `Helpers.MovingAverage` | includes/helpers.js:56-62 | a negative frame offset (`windowDays < 1`) is an invalid query; otherwise there is one average per row |
| `Helpers.MeanBounds` | includes/helpers.js:57 | an average lies between the least and the greatest value averaged |
| `Helpers.MovingAverageBounds` | includes/helpers.js:57-61 | every moving average lies within the range of the series' values |
| `Helpers.SingleDayWindow` | includes/helpers.js:60 | with `windowDays = 1` the average is the current row's value |
| `Helpers.WindowSumSlides` | includes/helpers.js:60 | moving one row ahead adds the new row and, once the frame is full, removes the row `w` back |
| `Helpers.ConsecutiveWindowSpansDays` | includes/helpers.js:58-60 | with one row per consecutive day, the frame holds only days in `(day_i - w, day_i]` |
| `Helpers.FrameCountsRowsNotDays` | includes/helpers.js:60 | with rows on days 1 and 10, a 7-row frame on day 10 includes day 1 and averages 2.0 |
| `Helpers.RiskLevel` | includes/helpers.js:96-101 | defines the tier: the first of `score > HIGH`, `> MEDIUM`, `> LOW` that is TRUE picks high, medium or low; otherwise (NULL included) normal |
| `Helpers.RiskLabelsDistinct` | includes/helpers.js:97-100 | the four tier labels are distinct |
| `Helpers.NullScoreIsNormal` | includes/helpers.js:96-101 | a NULL score is `'normal'` |
| `Helpers.RiskBands` | includes/helpers.js:96-101 | with strictly increasing thresholds (no range bound needed): high iff `s > HIGH`, medium iff `MEDIUM < s <= HIGH`, low iff `LOW < s <= MEDIUM`, normal iff `s <= LOW` |
| `Helpers.RiskMonotone` | includes/helpers.js:96-101 | a higher score never gets a lower tier, for any thresholds |
| `Helpers.RiskRankCountsThresholds` | includes/helpers.js:96-101 | with strictly increasing thresholds the tier's rank (normal 0 to high 3) is the number of thresholds the score strictly exceeds |
| `Helpers.RiskTiersReachable` | includes/helpers.js:96-101 | with strictly increasing thresholds every tier is produced by some score |
| `Helpers.MisorderedThresholdsHideMedium` | includes/helpers.js:97-98 | if `MEDIUM >= HIGH`, no score is `'medium_risk'` |
| `Helpers.DefaultRiskExamples` | includes/helpers.js:96-101 | shipped cutoffs: 0.51 is high, 0.5 medium, 0.3 low, 0.1 and 0.0 normal |
| `Helpers.SizeCategoryOf` | includes/helpers.js:111-117 | defines the category: the first of `size < TINY`, `< SMALL`, `< MEDIUM`, `< LARGE` that is TRUE picks tiny to large; otherwise (NULL included) xlarge |
| `Helpers.SizeLabelsDistinct` | includes/helpers.js:112-116 | the five size labels are distinct |
| `Helpers.NullSizeIsXLarge` | includes/helpers.js:111-117 | a NULL size falls to `ELSE 'xlarge'` |
| `Helpers.SizeBands` | includes/helpers.js:111-117 | with strictly increasing boundaries (positive or not) each category is the half-open byte range below its boundary and at or above the previous one |
| `Helpers.SizeMonotone` | includes/helpers.js:111-117 | a larger size never gets a smaller category, for any boundaries |
| `Helpers.SizeRankCountsBoundaries` | includes/helpers.js:111-117 | with strictly increasing boundaries the category's rank (tiny 0 to xlarge 4) is the number of boundaries the size reaches |
| `Helpers.DefaultSizeExamples` | includes/helpers.js:111-117 | shipped boundaries: 1023 is tiny, 1024 small, 10240 medium, 1048575 large, anything from 1048576 up xlarge |
| `Helpers.IsCacheHit` | includes/helpers.js:125-128 | true iff the result type is non-NULL and equal to one of the configured hit labels |
| `Helpers.DefaultCacheHitExamples` | includes/helpers.js:126-127 | each of the four shipped labels is a hit; `"Miss"`, `"hit"` and NULL are not |
| `Helpers.IsStaticContentType` | includes/constants.js:22 | defines the start-anchored content-type pattern: some listed alternative is a prefix |
| `Helpers.HasStaticExtension` | includes/constants.js:23 | defines the URI pattern: at some position a `.`, a listed extension, then the end or `?` and a newline-free rest |
| `Helpers.KeepsRecord` | includes/helpers.js:133-137 | defines the `WHERE` condition: neither pattern matches, with NULL content type and URI stem read as `''` |
| `Helpers.NullFieldsFilterAsEmpty` | includes/helpers.js:135-136 | a NULL content type or URI stem is filtered as `''` |
| `Helpers.EmptyRecordKept` | includes/helpers.js:135-136 | a record with NULL or empty content type and URI stem is kept |
| `Helpers.DefaultFilterExamples` | includes/helpers.js:135-136 | an `image/png` record is dropped; an `application/json` request for `/api/data` is kept |
| `Helpers.StaticTypeKeepsParameters` | includes/constants.js:22 | the anchored pattern still matches after text is appended, e.g. `text/css; charset=utf-8` |
| `Helpers.StaticPathWithQuery` | includes/constants.js:23 | a path ending in `.ext` matches, with or without a `?` query that has no newline |
| `Helpers.StaticExtensionShape` | includes/constants.js:23 | conversely, a matching URI is some path, `.`, a listed extension, and then nothing or `?` and a newline-free query |
| `Helpers.FilterKeepsByShape` | includes/helpers.js:133-137 | a record is kept iff no listed prefix starts its content type and its URI stem is not a path, `.`, a listed extension, and then nothing or `?` and a newline-free query |
| `Helpers.NoDotNoExtension` | includes/constants.js:23 | a URI without `.` never matches the extension pattern |
| `Helpers.DefaultImageIsStatic` | includes/constants.js:22 | `image/png` matches the shipped content-type pattern |
| `Helpers.DefaultStyleSheetIsStatic` | includes/constants.js:22 | `text/css` matches, with or without parameters |
| `Helpers.DefaultJsonIsNotStatic` | includes/constants.js:22 | `application/json` does not match |
| `Helpers.DefaultStyleSheetMatches` | includes/constants.js:23 | `/a/b.css` matches the shipped extension pattern |
| `Helpers.DefaultScriptWithQueryMatches` | includes/constants.js:23 | `/x.js?v=1` matches |
| `Helpers.DefaultApiPathDoesNotMatch` | includes/constants.js:23 | `/api/data` does not match |
| `Helpers.GenerateTags` | includes/helpers.js:145-148 | the result has length one plus the number of additional tags, starts with the layer and continues with the additional tags in order |
| `Helpers.TagsKeepEverything` | includes/helpers.js:146-147 | the tags are, as a multiset, the layer plus the additional tags; a tag is present iff it is the layer or an additional tag |
| `Helpers.DefaultAdditionalTags` | includes/helpers.js:145 | with no additional tags the result is the layer alone |
| `Constants.Valid` | includes/constants.js:5-34 | defines the invariants: nested windows, increasing risk cutoffs in (0, 1), a fractional contamination rate, consistent request limits, non-empty alternatives, at least one cache-hit label, distinct labels that need no escaping between single quotes, positive increasing size boundaries |
| `Constants.DefaultWindowsNested` | includes/constants.js:6-8 | `0 < RELOAD_DAYS <= BACKFILL_DAYS <= DATA_RETENTION_DAYS` (3, 7, 90) |
| `Constants.DefaultRateIsFraction` | includes/constants.js:11 | `0 < BOT_CONTAMINATION_RATE < 1` |
| `Constants.DefaultThresholdsOrdered` | includes/constants.js:12-14 | `0 < LOW < MEDIUM < HIGH < 1` (0.1, 0.3, 0.5) |
| `Constants.DefaultRequestLimitsConsistent` | includes/constants.js:17-19 | `0 < MIN_REQUESTS_FOR_ANALYSIS <= MAX_DAILY_REQUESTS_PER_IP` and `MAX_RPS_THRESHOLD > 0` |
| `Constants.DefaultPatternsNonEmpty` | includes/constants.js:22-23 | both static patterns have alternatives, none of them empty |
| `Constants.DefaultLabelsDistinct` | includes/constants.js:26 | there is at least one cache-hit label (no empty `IN ()`) and the four labels are pairwise distinct |
| `Constants.DefaultLabelsQuotable` | includes/constants.js:26 | no shipped label contains a single quote or a backslash, so `'${t}'` writes each as itself (includes/helpers.js:126) |
| `Constants.DefaultBoundariesIncreasing` | includes/constants.js:29-34 | `0 < 1024 < 10240 < 102400 < 1048576` |
| `Constants.DefaultsValid` | includes/constants.js:5-34 | the shipped configuration satisfies every invariant |

## Left out

- `entropyCalculation`: it computes floating-point logarithms (`SAFE.LOG`,
  `SAFE_DIVIDE`) under a window aggregation. That is real-valued numerics that
  exact arithmetic cannot model faithfully.
- `partitionConfig` and `clusterConfig`: they only wrap their arguments in
  metadata objects for the host tool and have no behaviour.
- includes/variables.js is not part of this model. It reads the host tool's
  ambient project configuration (run date, reprocess window, environment-dependent
  retention).
- SHA-256, `TO_HEX` and the cast to bytes: these are foreign calls, so they appear
  only as the `digest` parameter of `DedupKey`.
- `CURRENT_DATE()`: the current date is the `today` parameter. Dates are day
  numbers, so calendar arithmetic is not modelled.
- The literal SQL text, the general regular-expression engine and `REGEXP_CONTAINS`:
  only the two fixed patterns are modelled, as prefix and extension predicates.
- Threshold comparisons and averages use exact rationals. The warehouse compares
  64-bit floats against decimal literals, and `AVG` returns a 64-bit float.
  `MeanBounds` and `MovingAverageBounds` hold in exact arithmetic. Rounding is not
  modelled.
- `Helpers.FieldText`: a field is modelled by the text its `CAST(_ AS STRING)`
  produces. Two typed values that cast to the same text are therefore not told
  apart.
- `Helpers.IsCacheHit`: it is plain membership of the raw label. The generator quotes
  each label as `'${t}'` without escaping, so the SQL agrees only when
  `Constants.LabelsQuotable` holds. The model does not say what the warehouse does
  with a label holding a quote or a backslash.
- `Helpers.MovingAverage`: the model works on one IP's series, already sorted by
  day. The `PARTITION BY ip ORDER BY log_date` sorting is the warehouse's, and ties
  in the date order are not modelled. Metric values are never NULL in the model.
- `BOT_CONTAMINATION_RATE` and `MAX_RPS_THRESHOLD`: no rule consumes them, so only
  their ranges are stated.
- The deduplicator, the feature aggregator and the anomaly-score formula are not
  part of this model. They are not in includes/helpers.js or includes/constants.js,
  which provide only their building blocks.
