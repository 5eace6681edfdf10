/** The update callback: from the criteria to the two figure series, the
    scatter of scores over time and the bars of movies per Oscar count. */
module Views {
  import opened Movies
  import opened Seqs
  import opened Engine
  import opened Aggregator

  /** The scatter trace: parallel `x` (date), `y` (score) and `text` (title). */
  datatype ScatterSeries = ScatterSeries(x: seq<Date>, y: seq<Option<int>>, text: seq<string>)

  /** The bar trace: parallel `x` (Oscar count) and `y` (number of movies). */
  datatype BarSeries = BarSeries(x: seq<int>, y: seq<nat>)

  datatype Figures = Figures(scatter: ScatterSeries, bars: BarSeries)

  /** The `Date`, `Metacritic Score` and `Title` columns of a view. */
  function Scatter(view: seq<Movie>): ScatterSeries {
    ScatterSeries(
      seq(|view|, i requires 0 <= i < |view| => ReleaseDate(view[i])),
      seq(|view|, i requires 0 <= i < |view| => view[i].score),
      seq(|view|, i requires 0 <= i < |view| => view[i].title))
  }

  /** The index and the values of a histogram. */
  function Bars(h: Histogram): BarSeries {
    BarSeries(Keys(h), Counts(h))
  }

  /** `update_graphs`: the date filter, the two per-view filters, the scatter
      of the score view and the histogram of the Oscars view. The scatter has
      one point per record of the score view, and the bars, whose two series
      are parallel, count every record of the Oscars view once. */
  function UpdateGraphs(data: seq<Movie>, c: Criteria): (r: Figures)
    ensures var v := MetacriticFiltered(data, c);
      |r.scatter.x| == |v| && |r.scatter.y| == |v| && |r.scatter.text| == |v|
    ensures |r.bars.x| == |r.bars.y| && Sum(r.bars.y) == |OscarsFiltered(data, c)|
  {
    var dateFiltered := DateFiltered(data, c.startDate, c.endDate);
    var filteredMetacritic := ScoreView(dateFiltered, c.minScore);
    var filteredOscars := OscarsView(dateFiltered, c.minOscars);
    OscarHistogramCorrect(filteredOscars);
    Figures(Scatter(filteredMetacritic), Bars(OscarHistogram(filteredOscars)))
  }

  /** The scatter series are parallel and give, point by point in view
      order, the date, score and title of the records of the score view:
      every point has a present score of at least the minimum and a date in
      range, the points of a year-ordered dataset come in year order, and
      every record of the dataset that meets the criteria is plotted. */
  lemma ScatterSeriesCorrect(data: seq<Movie>, c: Criteria)
    requires SortedBy(data, YearKey)
    ensures var s, v := UpdateGraphs(data, c).scatter, MetacriticFiltered(data, c);
      && |s.x| == |v| && |s.y| == |v| && |s.text| == |v|
      && (forall i :: 0 <= i < |v| ==>
            s.x[i] == ReleaseDate(v[i]) && s.y[i] == v[i].score && s.text[i] == v[i].title)
      && (forall i :: 0 <= i < |s.y| ==>
            && s.y[i].Some? && s.y[i].value >= c.minScore
            && DateLe(c.startDate, s.x[i]) && DateLe(s.x[i], c.endDate))
      && (forall i, j :: 0 <= i < j < |s.x| ==> s.x[i].year <= s.x[j].year)
      && (forall m :: m in data && InDateRange(m, c.startDate, c.endDate) && MeetsScore(m, c.minScore) ==>
            exists i :: 0 <= i < |s.x| && s.x[i] == ReleaseDate(m) && s.y[i] == m.score && s.text[i] == m.title)
  {
    ScatterIsScoreView(data, c);
    PointsMeetCriteria(data, c);
    PointsInYearOrder(data, c);
    EveryQualifyingRecordPlotted(data, c);
  }

  /** The scatter of the callback gives, point by point, the date, score
      and title of the records of `filtered_metacritic`. */
  lemma ScatterIsScoreView(data: seq<Movie>, c: Criteria)
    ensures var s, v := UpdateGraphs(data, c).scatter, MetacriticFiltered(data, c);
      && s == Scatter(v)
      && |s.x| == |v| && |s.y| == |v| && |s.text| == |v|
      && (forall i :: 0 <= i < |v| ==>
            s.x[i] == ReleaseDate(v[i]) && s.y[i] == v[i].score && s.text[i] == v[i].title)
  {
  }

  /** The points of a year-ordered dataset come in year order. */
  lemma PointsInYearOrder(data: seq<Movie>, c: Criteria)
    requires SortedBy(data, YearKey)
    ensures var s := Scatter(MetacriticFiltered(data, c));
      forall i, j :: 0 <= i < j < |s.x| ==> s.x[i].year <= s.x[j].year
  {
    var v := MetacriticFiltered(data, c);
    var s := Scatter(v);
    ViewsKeepYearOrder(data, c);
    forall i, j | 0 <= i < j < |s.x| ensures s.x[i].year <= s.x[j].year {
      assert YearKey(v[i]) <= YearKey(v[j]);
    }
  }

  /** Every record of the dataset that meets the criteria is a point. */
  lemma EveryQualifyingRecordPlotted(data: seq<Movie>, c: Criteria)
    ensures var s := Scatter(MetacriticFiltered(data, c));
      forall m :: m in data && InDateRange(m, c.startDate, c.endDate) && MeetsScore(m, c.minScore) ==>
        exists i :: 0 <= i < |s.x| && s.x[i] == ReleaseDate(m) && s.y[i] == m.score && s.text[i] == m.title
  {
    var v := MetacriticFiltered(data, c);
    var s := Scatter(v);
    forall m | m in data && InDateRange(m, c.startDate, c.endDate) && MeetsScore(m, c.minScore)
      ensures exists i :: 0 <= i < |s.x| && s.x[i] == ReleaseDate(m) && s.y[i] == m.score && s.text[i] == m.title
    {
      assert m in v;
      var i :| 0 <= i < |v| && v[i] == m;
      assert s.x[i] == ReleaseDate(m) && s.y[i] == m.score && s.text[i] == m.title;
    }
  }

  /** Every point of the scatter has a present score of at least the minimum
      and a date in range. */
  lemma PointsMeetCriteria(data: seq<Movie>, c: Criteria)
    ensures var s := Scatter(MetacriticFiltered(data, c));
      forall i :: 0 <= i < |s.y| ==>
        && s.y[i].Some? && s.y[i].value >= c.minScore
        && DateLe(c.startDate, s.x[i]) && DateLe(s.x[i], c.endDate)
  {
    var v := MetacriticFiltered(data, c);
    var s := Scatter(v);
    forall i | 0 <= i < |s.y|
      ensures s.y[i].Some? && s.y[i].value >= c.minScore && DateLe(c.startDate, s.x[i]) && DateLe(s.x[i], c.endDate)
    {
      assert v[i] in v;
    }
  }

  /** The bar series are parallel; their `x` values are strictly ascending
      and are exactly the Oscar counts of the records in the date range with
      at least the minimum number of Oscars, whatever their score (a record
      with no score is counted too); each `y` value is the number of such
      records with that count and is at least 1; the `y` values sum to the
      size of the Oscars view, and an empty view gives empty bars. */
  lemma BarSeriesCorrect(data: seq<Movie>, c: Criteria)
    ensures var b, v := UpdateGraphs(data, c).bars, OscarsFiltered(data, c);
      && |b.x| == |b.y|
      && StrictlyAscending(b.x)
      && (forall k :: k in b.x <==>
            exists m :: m in data && InDateRange(m, c.startDate, c.endDate) && MeetsOscars(m, c.minOscars) && m.oscars == k)
      && (forall i :: 0 <= i < |b.x| ==> b.y[i] == multiset(OscarsColumn(v))[b.x[i]] >= 1)
      && Sum(b.y) == |v|
      && (b.x == [] <==> v == [])
  {
    var v := OscarsFiltered(data, c);
    OscarHistogramCorrect(v);
  }

  /** The two views are computed separately from the date-filtered set: the
      score criterion has no effect on the bars, and the Oscars criterion
      none on the scatter. */
  lemma ViewsAreIndependent(data: seq<Movie>, c: Criteria, minScore: int, minOscars: int)
    ensures UpdateGraphs(data, c.(minScore := minScore)).bars == UpdateGraphs(data, c).bars
    ensures UpdateGraphs(data, c.(minOscars := minOscars)).scatter == UpdateGraphs(data, c).scatter
  {
  }
}
