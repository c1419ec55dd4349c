# Course-evaluation analysis, modelled in Dafny

This project models the decision logic of `evals/analyze_evals.py`. The script
reads the exported evaluation surveys of several course sections (one CSV file
per section) and reports the following:

- per-course and aggregate ratings
- a ranking of the rated areas
- a selection of positive comments and a sample of improvement suggestions
- LaTeX-ready lines

The model takes the parsed rows as input. Each row is a sequence of
`(column name, answer)` cells: the items of the reader's row dictionary, in
order. With distinct column names this is header order. The model covers:

- **Tables** (`tables.dfy`): the agreement scale, the overall-effectiveness scale and
  the question table. The table is a `Label` enumeration whose full question text
  (`QuestionText`) and short label (`Name`) are the dictionary's keys and values.
  `Questions` lists it in declared order.
- **Metadata** (`metadata.dfy`): `parse_course_info`. The filename search for
  `(Spring|Fall|Summer)\s+(\d{4}).*?(CMSI\s+\d+)\s+(\d+)` is described by the
  predicate `Fits`, and the match `re.search` reports by `Leftmost` (smallest
  start, then shortest lazy gap). `ParseCourseInfo` is a scanner that needs no
  backtracking: every greedy run in the pattern is followed by a character the run
  cannot contain. A name without the pattern gets `("Unknown", "Unknown", "00")`.
- **Ratings** and **Comments** (`ratings.dfy`, `comments.dfy`):
  `extract_ratings` and `extract_comments`. Each is a loop over the rows and cells
  (a method with invariants), checked against a reference definition that
  collects over the row-major walk of all cells (`Records.Collect`).
- **Stats** (`stats.dfy`): `calculate_stats` in exact real arithmetic, with the
  mean and the unbiased sample variance.
- **Feedback** (`feedback.dfy`): `filter_good_feedback` and its keyword count.
- **Aggregate** (`aggregate.dfy`): the per-file part of `main` and the running
  totals, as a fold over per-file summaries.
- **Ranking** (`ranking.dfy`): the `(mean, spread, label, n)` tuples, their
  descending sort in Python's tuple order, and the top-3 and bottom-3 slices.
- **Report** (`report.dfy`): the whole run. Files are sorted by name, in POSIX
  path order, and the
  totals are built. The following are then derived: the feedback selection, the
  truncated samples, the improvement sample and the LaTeX items with their
  escaping.
- **Sorting** and **Text** (`sorting.dfy`, `text.dfy`): the library behaviour the
  script relies on. This covers a sort under a total preorder, substring search,
  ASCII lower-casing, `strip()` and code-point string order.

The central results:

- The per-file loops compute exactly the reference collections.
- Folding the per-file summaries gives the same totals as extracting from all rows
  of all files at once, file after file (`Aggregate.FoldIsExtractionOfAllRows`).
- The ranking holds exactly one tuple per scored label, sorted, and is the unique
  sorted permutation.
- The LaTeX escaping is undone by removing the inserted backslashes.

Keying the score maps by `Label` rather than by the label string is equivalent,
because different questions have different labels (`Tables.NamesDistinct`).

Where the code does more than its comments and headings say, the model follows
the code:

- The comment at line 215 says the ranking is sorted by mean, descending. Ties
  are not left to the sort's stability: Python compares whole tuples, so equal
  means are ordered by spread, then by label string, then by count.
- The heading at line 246 calls the improvement list a sample. It is not an
  unfiltered prefix: among the first five suggestions, only those longer than
  ten characters are shown, each numbered by its position among the five.

## Model

| member | source | states |
|---|---|---|
| Tables.ScalesAreFivePoint | evals/analyze_evals.py:23-37 | both scales take exactly the scores 1..5 on their five answers, and no answer belongs to both scales |
| Tables.LikertIsFivePoint | evals/analyze_evals.py:23-29 | every agreement answer scores in [1,5] and every score in [1,5] is taken |
| Tables.EffectivenessIsFivePoint | evals/analyze_evals.py:31-37 | every effectiveness answer scores in [1,5] and every score in [1,5] is taken |
| Tables.QuestionsListed | evals/analyze_evals.py:40-48 | every question of the table appears at some position of the declared order |
| Tables.NamesDistinct | evals/analyze_evals.py:40-48 | different questions carry different short labels, so a label string names one question |
| Tables.LabelFor | evals/analyze_evals.py:264 | the entry found for a label string carries that label |
| Tables.LabelForRoundTrip | evals/analyze_evals.py:262-265 | looking up a question's label gives back that very question, so its full text |
| Text.ContainsIff | evals/analyze_evals.py:83 | Python's `pat in s` holds exactly when `pat` occurs at some position of `s` |
| Text.StripSpec | evals/analyze_evals.py:102 | `strip()` returns a slice whose both ends are not whitespace, with only whitespace cut away on either side |
| Metadata.ScanHead | evals/analyze_evals.py:54 | finds the semester and year at a position exactly when the head of the pattern matches there |
| Metadata.ScanTail | evals/analyze_evals.py:54 | finds the course number and section at a position exactly when the tail of the pattern matches there |
| Metadata.ScanGap | evals/analyze_evals.py:54 | returns the first tail reachable without crossing a newline, or none when no tail is reachable |
| Metadata.Search | evals/analyze_evals.py:54 | returns a candidate match that no other candidate precedes (earlier start, or same start and shorter gap), or none when no candidate exists |
| Metadata.ParseCourseInfo | evals/analyze_evals.py:51-61 | the fallback triple exactly when the pattern occurs nowhere; otherwise the groups of the match `re.search` reports, well shaped |
| Metadata.GroupsWellShaped | evals/analyze_evals.py:55-60 | a successful triple is a semester name, a space and four digits; `CMSI`, whitespace and digits; a non-empty digit string; never the fallback |
| Metadata.LeftmostUnique | evals/analyze_evals.py:54 | the reported match is unique, so the triple is well defined |
| Metadata.ParseTypicalName | evals/analyze_evals.py:51-60 | `Fall 2025 CMSI 186 02.csv` gives `("Fall 2025", "CMSI 186", "02")` |
| Metadata.NoSemesterInitial | evals/analyze_evals.py:61 | a name in which no semester name can begin gets the fallback triple |
| Metadata.ParseNameWithoutPattern | evals/analyze_evals.py:61 | `notes 2025.csv` gets the fallback triple |
| Ratings.ExtractRatings | evals/analyze_evals.py:74-91 | each label's series is the reference collection over all cells in row-major order; a label is a key exactly when its series is non-empty; the effectiveness series likewise |
| Ratings.AddScore | evals/analyze_evals.py:82-84 | one question's series gains the cell's Likert score when its column asks it; no other series changes |
| Ratings.LikertStep | evals/analyze_evals.py:82-84 | one pass of the question loop extends exactly that question's series by the cell |
| Ratings.QuestionScoresOrigin | evals/analyze_evals.py:82-84 | every score in a question's series is the Likert score of an answer in a column asking it outside a comments column, hence in [1,5] |
| Ratings.EffectivenessScoresOrigin | evals/analyze_evals.py:86-89 | every effectiveness score is the score of an answer in an overall-effectiveness column, hence in [1,5] |
| Ratings.QuestionSeriesLength | evals/analyze_evals.py:79-84 | a question's series has one score per cell that asks it with an agreement answer; a column asking several questions feeds each |
| Ratings.EffectivenessSeriesLength | evals/analyze_evals.py:79-89 | the effectiveness series has one score per effectiveness cell with a recognised answer |
| Ratings.ScalesNeverMix | evals/analyze_evals.py:82-89 | no single answer feeds both a question's series and the effectiveness series |
| Comments.ExtractComments | evals/analyze_evals.py:94-106 | both lists are the reference collections over all cells in row-major order |
| Comments.FileCell | evals/analyze_evals.py:101-104 | one cell extends the beneficial list, or else the improvement list, as the reference routing says |
| Comments.CommentsOrigin | evals/analyze_evals.py:99-104 | every comment is the stripped form of a given answer (non-empty, not `D/A`) in a column with the list's marker; an improvement comment never comes from a column with the beneficial marker |
| Comments.RoutingOfAnswer | evals/analyze_evals.py:101-104 | a given answer in a column with the beneficial marker goes to the beneficial list only; otherwise, in a column with the improvement marker, to the improvement list only |
| Comments.BlankAnswerKeptEmpty | evals/analyze_evals.py:101-104 | every non-empty whitespace-only answer passes the raw test and is kept as the empty comment: in the beneficial list for a beneficial column, otherwise in the improvement list for an improvement column |
| Comments.BlankAnswerExample | evals/analyze_evals.py:101-102 | `"   "` in the column "What was most beneficial?" is kept as the empty comment |
| Comments.NonAnswersDropped | evals/analyze_evals.py:101-104 | the empty answer and `D/A` add nothing to either list |
| Stats.CalculateStats | evals/analyze_evals.py:109-115 | nothing exactly for the empty series; otherwise mean times n is the sum, variance is 0 for one value, and variance times (n-1) is the sum of squared deviations from the mean |
| Stats.StatsPermutationInvariant | evals/analyze_evals.py:109-115 | two series holding the same values, in any order, have the same mean and variance |
| Stats.SumPermutation | evals/analyze_evals.py:113 | series holding the same values have the same sum |
| Stats.SquaredDeviationsPermutation | evals/analyze_evals.py:114 | series holding the same values have the same squared deviations from any centre |
| Stats.StatsOrderInvariant | evals/analyze_evals.py:109-115 | the statistics do not depend on the order in which two series are joined, so not on the order in which files are processed |
| Stats.MeanWithinBounds | evals/analyze_evals.py:113 | the mean of values in [lo, hi] lies in [lo, hi] |
| Stats.ConstantSeries | evals/analyze_evals.py:113-114 | a constant series [k, ..., k] has mean k and variance 0 |
| Stats.ExampleThreeScores | evals/analyze_evals.py:113-114 | the scores 5, 3, 5 have mean 13/3 and variance 4/3 |
| Feedback.FilterGoodFeedback | evals/analyze_evals.py:118-135 | the result is an order-preserving subsequence of the input holding every good comment as often as it occurs and nothing else |
| Feedback.ThresholdMonotone | evals/analyze_evals.py:128 | raising the length threshold can only remove comments from the selection |
| Feedback.PositiveCountIsDistinctKeywords | evals/analyze_evals.py:121-131 | `positive_count` is the number of distinct keywords occurring in the lower-cased comment |
| Feedback.CountHitsIsDistinctHits | evals/analyze_evals.py:131 | for a list without repeats, the keyword count is the size of the set of keywords that occur |
| Feedback.ShortCommentNeverKept | evals/analyze_evals.py:128 | a comment shorter than 50 characters is never selected at the default threshold |
| Feedback.GreatAndHelpfulKept | evals/analyze_evals.py:127-133 | a comment of at least 50 characters containing "great" and "helpful" is selected |
| Feedback.OnlyGreatDropped | evals/analyze_evals.py:131-132 | a comment with no keyword other than "great" is not selected |
| Aggregate.SummarizeFile | evals/analyze_evals.py:159-194 | the course summary holds the parsed name, the row count and exactly what both extractors yield on the file's rows |
| Aggregate.AppendSeries | evals/analyze_evals.py:179-182 | a label's total gains the course's series for it; no other label's total changes; no empty series is stored |
| Aggregate.ExtendRatingsSeries | evals/analyze_evals.py:178-182 | the label loop appends each label's course series to its total once |
| Aggregate.ExtendRatingsKeys | evals/analyze_evals.py:178-182 | the label loop never stores an empty series |
| Aggregate.Absorb | evals/analyze_evals.py:175-197 | one course is appended to the totals: every label's total gains the course's series, no empty series is stored, and each list gains the course's list |
| Aggregate.ExtendRatingsAppends | evals/analyze_evals.py:178-182 | the whole label loop appends each label's course series to its total and stores no empty series |
| Aggregate.AbsorbSeries | evals/analyze_evals.py:175-182 | absorbing a course appends its series for every label to the total |
| Aggregate.Fold | evals/analyze_evals.py:158-197 | the totals after the courses in processing order: effectiveness and both comment lists are the courses' lists joined, first course first |
| Aggregate.FoldJoins | evals/analyze_evals.py:158-197 | per label, and for effectiveness and both comment lists, the totals are the courses' lists joined in processing order |
| Aggregate.JoinedLength | evals/analyze_evals.py:175-197 | a joined total is as long as the per-course lists together |
| Aggregate.FoldIsExtractionOfAllRows | evals/analyze_evals.py:152-197 | the totals equal what the extractors yield on all rows of all files, file after file |
| Ranking.LabelStatsInOrder | evals/analyze_evals.py:209-213 | the label loop yields tuples in declared label order, each with its label's count and statistics, and one for every scored label |
| Ranking.LabelStatsPositions | evals/analyze_evals.py:209-213 | the tuples from a loop position on name labels from that position on, in strictly increasing declared position |
| Ranking.LabelStatsCover | evals/analyze_evals.py:209-213 | every label with a non-empty total series gets a tuple |
| Ranking.LabelStatsDistinct | evals/analyze_evals.py:209-213 | no label gets two tuples |
| Ranking.RankGeOrders | evals/analyze_evals.py:216 | tuple order is total, transitive and antisymmetric |
| Ranking.Rank | evals/analyze_evals.py:216 | the ranking is sorted in descending tuple order and is a permutation of the label tuples |
| Ranking.RankingEntries | evals/analyze_evals.py:209-216 | each ranked tuple carries the count and statistics of its label's total series, and no label is ranked twice |
| Ranking.RankingCovers | evals/analyze_evals.py:209-216 | a label is ranked exactly when its total series is non-empty |
| Ranking.RankUnique | evals/analyze_evals.py:216 | any list sorted in descending tuple order that holds the label tuples is the ranking |
| Ranking.RankingMeansDescend | evals/analyze_evals.py:215-216 | the means never increase along the ranking, as the sort by mean, descending, promises |
| Ranking.TopOutranksRest | evals/analyze_evals.py:223 | each of the first three entries outranks, and has a mean at least that of, every later entry |
| Ranking.TopBottomShareIffShort | evals/analyze_evals.py:223-229 | for a list without repeats, the first three and the last three share an entry exactly when it has between one and five entries |
| Ranking.TopBottomDisjointIffSixOrNone | evals/analyze_evals.py:223-229 | the top and bottom slices of the ranking are disjoint exactly when the ranking is empty or has at least six entries |
| Sorting.InsertionSort | evals/analyze_evals.py:216 | the result is sorted by the order and is a permutation of the input |
| Sorting.SortedPermutationUnique | evals/analyze_evals.py:216 | under an antisymmetric total order two sorted permutations of each other are equal |
| Report.ReportCourse | evals/analyze_evals.py:171-182 | a course's effectiveness statistics exist iff it has effectiveness scores, and are those scores' statistics; its question tuples come in declared label order, each with its label's count and statistics, one for every scored label |
| Report.SortFiles | evals/analyze_evals.py:158 | the files in non-decreasing POSIX path order (code-point order of the names), a permutation of the input |
| Report.Truncate | evals/analyze_evals.py:240-241 | a text within the limit is kept; a longer one keeps its first `limit` characters followed by an ellipsis |
| Report.TruncateBound | evals/analyze_evals.py:240-241 | a truncated text is at most three characters longer than the limit and than the text itself |
| Report.ShownPrefix | evals/analyze_evals.py:238-241 | the first ten good comments, each truncated to 500 characters |
| Report.ImprovementSample | evals/analyze_evals.py:249-253 | each shown suggestion is one of the first five, longer than ten characters, numbered by its position and truncated to 300 characters |
| Report.ImprovementSampleComplete | evals/analyze_evals.py:249-253 | every suggestion among the first five longer than ten characters is shown |
| Report.ImprovementSampleOrdered | evals/analyze_evals.py:249 | the shown suggestions keep their order |
| Report.LatexCleanIsEscape | evals/analyze_evals.py:272-273 | the five replacements in a row put one backslash before each special character and change nothing else |
| Report.EscapeRoundTrip | evals/analyze_evals.py:272-273 | removing the inserted backslashes gives back the comment |
| Report.LatexCutSplitsEscape | evals/analyze_evals.py:272-275 | as written, 199 plain characters and a special one come out as the 199 characters, a lone backslash and `...` |
| Report.LatexItemAsWritten | evals/analyze_evals.py:272-275 | the item as written is the escaped comment when that fits in 200 characters, otherwise its first 200 characters and an ellipsis |
| Report.LatexItem | evals/analyze_evals.py:270-276 | the corrected LaTeX item reads back as exactly the comment's first 200 characters, with the ellipsis if cut |
| Report.AreaTexts | evals/analyze_evals.py:262-265 | each top entry is shown with the full text of its own question |
| Report.LatexItemAgreesWhenFits | evals/analyze_evals.py:272-275 | when the escaped comment fits in 200 characters, the corrected item and the item as written are both the escaped comment |
| Report.LatexItems | evals/analyze_evals.py:270-276 | one item for each of the first three good comments; each reads back as its comment cut to 200 characters, and equals the item as written whenever the escaped comment fits |
| Report.Conclude | evals/analyze_evals.py:204-276 | the aggregate part: the effectiveness statistics of the total; the ranking of the totals; top and bottom as its first and last min(3, n) entries; the good feedback as the filter of the beneficial total; the first ten shown, the improvement sample, the LaTeX areas of the top entries and the LaTeX items of the first three good comments |
| Report.SummarizeAll | evals/analyze_evals.py:152-197 | one summary per file in order, each summarising its file, and the totals are their fold |
| Report.Analyze | evals/analyze_evals.py:138-277 | no report exactly when there is no file; otherwise the course reports follow the sorted files and the totals are the extraction from all their rows |

## Left out

- Reading the files is not modelled: directory globbing, the early return when
  nothing is found, and CSV parsing with the BOM encoding (lines 64-71 and
  139-146). Each file is given as its name and its parsed rows. The early return
  is the `NoFiles` result.
- The Windows console reconfiguration (lines 19-20) is platform I/O.
- Printing and number formatting (`:.2f`, the headings, the `\begin{itemize}`
  lines) are presentation. The model returns the values that are printed.
- Floating point is not modelled. Means and variances are exact reals.
- Stats.CalculateStats: returns the sample variance, not the standard deviation.
  The square root is left out because it is generally irrational (for 5, 3, 5
  the variance is 4/3), and exact reals have no square-root function.
- Ranking.Rank: the tuples carry the variance where the source carries the
  standard deviation. The square root is increasing, so both give the same order
  and the same ranking.
- Text.Lower: lower-cases ASCII letters only. `str.lower()` also maps non-ASCII
  letters.
- Text.IsDigit: accepts ASCII digits only. Python's `\d` also accepts other
  Unicode decimal digits.
- Metadata.ParseCourseInfo: `.replace(" ", " ")` at line 58 replaces a space by a
  space and is the identity, so it is not modelled.
- Duplicate column names in a header are not modelled separately.
  `csv.DictReader` keeps one dictionary entry for such a name, holding the last
  value. The model takes the row as given, so such a row must be passed with
  that one entry.
- A data line with more fields than the header is not modelled. For it,
  `csv.DictReader` adds a column named `None`, and the run stops at line 83,
  where `q_text in col` is evaluated on that `None`.
- A short line's missing fields are `None` in `csv.DictReader` (its default
  `restval`). The model reads them as the empty answer `""`. Both fail every
  test at lines 83, 88, 101 and 103, so the results are the same.
- Report.SortFiles: the order is POSIX path order, which compares names case by
  case. On Windows, which the script supports at lines 19-20, `pathlib` compares
  lower-cased names. There, `apple 2025.csv` sorts before `Banana 2025.csv`, and
  the model's order is not the order the script uses.
- Report.Conclude: the LaTeX items are the corrected `Report.LatexItem`, not the
  cut as written (see Findings). The two agree whenever the escaped comment fits
  in 200 characters (`Report.LatexItemAgreesWhenFits`), and
  `Report.LatexItemAsWritten` keeps the original.

## Findings

| source | as written | input that shows it | evidently intended | confidence | as-written member | corrected member |
|---|---|---|---|---|---|---|
| evals/analyze_evals.py:272-275 | The comment is escaped first, and the escaped text is then cut to 200 characters. The cut can fall between a backslash and the character it escapes. | A comment of 199 letters followed by `&` becomes the 199 letters, `\` and `...`. LaTeX reads `\.` as an accent command, and the item no longer reads back as the comment. | Cut the comment to 200 characters, then escape it, so that no escape is split. | medium (not executed) | Report.LatexItemAsWritten, shown by Report.LatexCutSplitsEscape | Report.LatexItem |
