# Top Movies Analysis: the filter-and-aggregate engine

The application (`app.py`) loads a catalog of movies (title, release year,
Metacritic score, Oscars won), sorts it by year, and derives the options of
three filter controls from the whole catalog: a dropdown of the distinct
scores, a dropdown of the distinct Oscar counts, and a date-range picker
bounded by the earliest and latest release date. On every change of the
controls, the update callback keeps the records whose release date (1 January
of the release year) lies in the chosen range, and from that set makes two
independent views: the records with a score of at least the chosen minimum,
shown as a scatter of score over time, and the records with at least the
chosen number of Oscars, shown as a bar chart of how many movies won each
number of Oscars.

This project models that engine as pure Dafny functions over sequences of
records and proves what the controls and the figures promise.

- `movies.dfy` (`Movies`): the record, the date (a year-month-day triple in
  lexicographic order), the release date of a record and the criteria.
- `seqs.dfy` (`Seqs`): the generic operations behind the pandas calls:
  selection by a predicate (`query`), insertion sort by a key
  (`sort_values`), order-of-appearance de-duplication (`unique`), and
  subsequences.
- `engine.dfy` (`Engine`): the date-range selection and the score and Oscars
  selections, with membership, order, idempotence and monotonicity.
- `aggregator.dfy` (`Aggregator`): `value_counts().sort_index()` on the
  `Oscars Won` column.
- `options.dfy` (`Options`): start-up: the sorted dataset, the option lists,
  their defaults, the date bounds, and the start-up failure.
- `views.dfy` (`Views`): the update callback and its two series.

A missing (NaN) score is `None`; a NaN compared with `>=` is false, so such a
record never passes the score filter. Scores are integers. The start-up
failure is a `Result`: `min()` of an empty list of scores raises, so
`Initialize` returns `Err(NoScoreOptions)` exactly when no record has a score.
An empty catalog is one such case; a non-empty catalog in which every score
is missing is another.

## Model

| member | source | states |
|---|---|---|
| `Seqs.Filter` | app.py:205-211 | A `query` keeps exactly the records that satisfy its condition, every copy of each (a kept record occurs as often as in the input, a dropped one not at all), and is never longer than its input |
| `Seqs.FilterWeaker` | app.py:205-211 | A weaker condition keeps every record a stronger one keeps, in the same relative order |
| `Seqs.SortByCorrect` | app.py:55 | `SortBy` (the `sort_values` of the loaded rows) gives a sequence ascending by its key that is a permutation of its input |
| `Seqs.InsertByCorrect` | app.py:55 | Inserting one element into a sequence sorted by the key keeps it sorted and adds exactly that element |
| `Seqs.Unique` | app.py:59-60 | `unique` keeps exactly the values of its input, each one once |
| `Seqs.UniqueOfSorted` | app.py:59-60 | The distinct values of a sorted column come out strictly ascending |
| `Engine.DateFiltered` | app.py:205 | A record is in the date-filtered set iff it is in the dataset and start <= its date <= end (both ends inclusive); a record in range appears as many times as in the dataset; the set is a subsequence of the dataset |
| `Engine.ScoreView` | app.py:208-210 | A record is in the score view iff it is in the date-filtered set, has a score, and that score is >= the minimum, with all its copies; no record without a score is ever in it |
| `Engine.OscarsView` | app.py:211 | A record is in the Oscars view iff it is in the date-filtered set and its Oscars count is >= the minimum, with all its copies |
| `Engine.MetacriticFiltered` | app.py:205-210 | The records plotted are those of the dataset with a date in range and a present score >= the minimum, each as many times as it occurs in the dataset; they form a subsequence of the dataset and are no more than the dataset |
| `Engine.OscarsFiltered` | app.py:204-211 | The records counted are those of the dataset with a date in range and enough Oscars, with no condition on their score, each as many times as it occurs in the dataset; they form a subsequence no longer than the dataset |
| `Engine.ViewsKeepYearOrder` | app.py:51-56 | Both views of the year-sorted dataset are in ascending year order |
| `Engine.DateFilterIdempotent` | app.py:205 | Applying the date filter to its own result with the same range changes nothing |
| `Engine.WideningKeepsRecords` | app.py:205-211 | Lowering either minimum or widening the date range never removes a record from either view, and the views only grow |
| `Engine.InvertedRangeIsEmpty` | app.py:205 | A range whose end is before its start is not rejected; it selects nothing |
| `Engine.InDateRangeByYear` | app.py:54 | Because a record's date is 1 January of its year, an end date later in year Y still admits Y, and a start date after 1 January of Y excludes it |
| `Aggregator.BumpCorrect` | app.py:241-242 | `Bump`, counting one more occurrence of a value, keeps the keys strictly ascending and the counts positive, adds one to that value's count and leaves every other count alone |
| `Aggregator.BumpSum` | app.py:241-242 | Counting one more occurrence adds one to the sum of the counts |
| `Aggregator.ValueCountsCorrect` | app.py:241-242 | The histogram `ValueCounts` builds (`value_counts().sort_index()`) has strictly ascending keys that are exactly the distinct values of the column; each count is that value's number of occurrences, at least 1; the counts sum to the column's length; an empty column gives an empty histogram |
| `Aggregator.OscarHistogramCorrect` | app.py:241-242 | The same for `OscarHistogram`, the histogram of a view's `Oscars Won` column: the keys are exactly the Oscar counts found among its records, and the counts sum to its size |
| `Options.PrepareData` | app.py:51-56 | The dataset used everywhere is the loaded rows sorted ascending by year, a permutation of them |
| `Options.PresentScores` | app.py:59 | `dropna` keeps exactly the scores that are present |
| `Options.SortedDistinct` | app.py:59-60 | `sort_values().unique()` gives the distinct values of a column, strictly ascending |
| `Options.ScoreOptions` | app.py:59 | The score options are strictly ascending and are exactly the present scores of the dataset |
| `Options.OscarOptions` | app.py:60 | The Oscars options are strictly ascending and are exactly the Oscar counts of the dataset |
| `Options.MinOf` | app.py:110 | `min` of an option list is an element of the list no greater than any other; it fails exactly on an empty list |
| `Options.EarliestDate` | app.py:139 | The smallest `Date` is the date of some record and no later than any record's date |
| `Options.LatestDate` | app.py:140 | The largest `Date` is the date of some record and no earlier than any record's date |
| `Options.Initialize` | app.py:51-143 | Start-up fails iff no record has a score; otherwise the dataset is sorted by year, each dropdown's options are ascending, distinct and exactly the dataset's values, each default is the minimum of its options, and the date picker's bounds and initial range are the earliest and latest release dates |
| `Options.DefaultsShowEverything` | app.py:139-142 | With the initial controls, the date range keeps the whole dataset, the Oscars view is the whole dataset, and the score view is every record that has a score |
| `Views.UpdateGraphs` | app.py:184-262 | The callback's scatter has one point per record of the score view, in all three series; the bars' two series are parallel, and their counts sum to the size of the Oscars view |
| `Views.ScatterSeriesCorrect` | app.py:214-228 | `x`, `y` and `text` have the length of the score view and give each record's date, score and title in view order; every point has a present score >= the minimum and a date in range; points are in year order; every qualifying record is plotted |
| `Views.BarSeriesCorrect` | app.py:238-249 | The bars' `x` and `y` are parallel; `x` is strictly ascending and is exactly the Oscar counts of the records in range with enough Oscars, scored or not; each `y` is that count's number of records, at least 1; the `y` values sum to the Oscars view's size; an empty view gives empty bars |
| `Views.ViewsAreIndependent` | app.py:207-211 | The two views are filtered separately from the date-filtered set: the score minimum does not affect the bars and the Oscars minimum does not affect the scatter |

## Left out

- Reading the CSV file and parsing `Year` and the `YYYY-MM-DD` strings of the date picker: the model starts from records and dates that are already values.
- The Dash layout, stylesheets, widgets, callback wiring and `app.run`: user-interface and framework plumbing. The dropdown options and defaults and the date-picker bounds are modelled as the values the layout receives.
- Figure cosmetics (hover templates, titles, axis settings, colours): fixed strings with no logic.
- Floating-point scores: scores are integers, and `None` stands for NaN.
- A date picker that has been cleared (a `None` start or end date): the model takes both ends as dates.
- Options.PrepareData: the tie order of records from the same year is that of a stable insertion sort, while the default pandas sort does not promise one; only the year order and the permutation are proved, and nothing else depends on ties.
