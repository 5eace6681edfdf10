/** The filter engine of the update callback: the date-range selection and
    the two independent per-view selections made from its result. */
module Engine {
  import opened Movies
  import opened Seqs

  /** The date query: `Date >= start_date` and `Date <= end_date`, both ends inclusive. */
  predicate InDateRange(m: Movie, startDate: Date, endDate: Date) {
    DateLe(startDate, ReleaseDate(m)) && DateLe(ReleaseDate(m), endDate)
  }

  /** The score query `Metacritic Score >= min`; a NaN score compares false. */
  predicate MeetsScore(m: Movie, minScore: int) {
    m.score.Some? && m.score.value >= minScore
  }

  /** The Oscars query `Oscars Won >= min`. */
  predicate MeetsOscars(m: Movie, minOscars: int) {
    m.oscars >= minOscars
  }

  function InDateRangeP(startDate: Date, endDate: Date): Movie -> bool {
    m => InDateRange(m, startDate, endDate)
  }

  function MeetsScoreP(minScore: int): Movie -> bool {
    m => MeetsScore(m, minScore)
  }

  function MeetsOscarsP(minOscars: int): Movie -> bool {
    m => MeetsOscars(m, minOscars)
  }

  /** The date-filtered dataset. */
  function DateFiltered(data: seq<Movie>, startDate: Date, endDate: Date): (r: seq<Movie>)
    ensures forall m :: m in r <==> m in data && InDateRange(m, startDate, endDate)
    ensures forall m :: multiset(r)[m] == if InDateRange(m, startDate, endDate) then multiset(data)[m] else 0
    ensures IsSubsequence(r, data)
  {
    FilterIsSubsequence(data, InDateRangeP(startDate, endDate));
    Filter(data, InDateRangeP(startDate, endDate))
  }

  /** The score view, selected from the date-filtered set. */
  function ScoreView(dateFiltered: seq<Movie>, minScore: int): (r: seq<Movie>)
    ensures forall m :: m in r <==> m in dateFiltered && m.score.Some? && m.score.value >= minScore
    ensures forall m :: multiset(r)[m] == if MeetsScore(m, minScore) then multiset(dateFiltered)[m] else 0
    ensures forall m :: m in r ==> m.score.Some?
    ensures IsSubsequence(r, dateFiltered)
  {
    FilterIsSubsequence(dateFiltered, MeetsScoreP(minScore));
    Filter(dateFiltered, MeetsScoreP(minScore))
  }

  /** The Oscars view, selected from the same date-filtered set. */
  function OscarsView(dateFiltered: seq<Movie>, minOscars: int): (r: seq<Movie>)
    ensures forall m :: m in r <==> m in dateFiltered && m.oscars >= minOscars
    ensures forall m :: multiset(r)[m] == if MeetsOscars(m, minOscars) then multiset(dateFiltered)[m] else 0
    ensures IsSubsequence(r, dateFiltered)
  {
    FilterIsSubsequence(dateFiltered, MeetsOscarsP(minOscars));
    Filter(dateFiltered, MeetsOscarsP(minOscars))
  }

  /** `filtered_metacritic`: the score view of the date-filtered dataset. */
  function MetacriticFiltered(data: seq<Movie>, c: Criteria): (r: seq<Movie>)
    ensures forall m :: m in r <==> m in data && InDateRange(m, c.startDate, c.endDate) && MeetsScore(m, c.minScore)
    ensures forall m :: multiset(r)[m] == if InDateRange(m, c.startDate, c.endDate) && MeetsScore(m, c.minScore) then multiset(data)[m] else 0
    ensures IsSubsequence(r, data) && |r| <= |data|
  {
    var p, q := InDateRangeP(c.startDate, c.endDate), MeetsScoreP(c.minScore);
    FilterCompose(data, p, q);
    FilterIsSubsequence(data, Both(p, q));
    SubsequenceLength(Filter(data, Both(p, q)), data);
    ScoreView(DateFiltered(data, c.startDate, c.endDate), c.minScore)
  }

  /** `filtered_oscars`: the Oscars view of the date-filtered dataset; the
      score criterion plays no part in it. */
  function OscarsFiltered(data: seq<Movie>, c: Criteria): (r: seq<Movie>)
    ensures forall m :: m in r <==> m in data && InDateRange(m, c.startDate, c.endDate) && MeetsOscars(m, c.minOscars)
    ensures forall m :: multiset(r)[m] == if InDateRange(m, c.startDate, c.endDate) && MeetsOscars(m, c.minOscars) then multiset(data)[m] else 0
    ensures IsSubsequence(r, data) && |r| <= |data|
  {
    var p, q := InDateRangeP(c.startDate, c.endDate), MeetsOscarsP(c.minOscars);
    FilterCompose(data, p, q);
    FilterIsSubsequence(data, Both(p, q));
    SubsequenceLength(Filter(data, Both(p, q)), data);
    OscarsView(DateFiltered(data, c.startDate, c.endDate), c.minOscars)
  }

  /** Both views of a year-ordered dataset are themselves in year order. */
  lemma ViewsKeepYearOrder(data: seq<Movie>, c: Criteria)
    requires SortedBy(data, YearKey)
    ensures SortedBy(MetacriticFiltered(data, c), YearKey)
    ensures SortedBy(OscarsFiltered(data, c), YearKey)
  {
    SubsequenceSorted(MetacriticFiltered(data, c), data, YearKey);
    SubsequenceSorted(OscarsFiltered(data, c), data, YearKey);
  }

  /** Filtering a date-filtered view by the same range returns it unchanged. */
  lemma DateFilterIdempotent(data: seq<Movie>, startDate: Date, endDate: Date)
    ensures DateFiltered(DateFiltered(data, startDate, endDate), startDate, endDate)
         == DateFiltered(data, startDate, endDate)
  {
    FilterIdempotent(data, InDateRangeP(startDate, endDate));
  }

  /** `wide` admits everything `narrow` admits: lower minimums and a date
      range that contains the other one. */
  predicate Widens(wide: Criteria, narrow: Criteria) {
    && wide.minScore <= narrow.minScore
    && wide.minOscars <= narrow.minOscars
    && DateLe(wide.startDate, narrow.startDate)
    && DateLe(narrow.endDate, wide.endDate)
  }

  /** Monotonicity: widening the criteria never removes a record from either
      view, and the records kept stay in the same relative order. */
  lemma WideningKeepsRecords(data: seq<Movie>, narrow: Criteria, wide: Criteria)
    requires Widens(wide, narrow)
    ensures IsSubsequence(MetacriticFiltered(data, narrow), MetacriticFiltered(data, wide))
    ensures IsSubsequence(OscarsFiltered(data, narrow), OscarsFiltered(data, wide))
    ensures |MetacriticFiltered(data, narrow)| <= |MetacriticFiltered(data, wide)|
    ensures |OscarsFiltered(data, narrow)| <= |OscarsFiltered(data, wide)|
  {
    var dn, dw := InDateRangeP(narrow.startDate, narrow.endDate), InDateRangeP(wide.startDate, wide.endDate);
    var sn, sw := MeetsScoreP(narrow.minScore), MeetsScoreP(wide.minScore);
    var on, ow := MeetsOscarsP(narrow.minOscars), MeetsOscarsP(wide.minOscars);
    FilterCompose(data, dn, sn);
    FilterCompose(data, dw, sw);
    FilterCompose(data, dn, on);
    FilterCompose(data, dw, ow);
    FilterWeaker(data, Both(dn, sn), Both(dw, sw));
    FilterWeaker(data, Both(dn, on), Both(dw, ow));
    SubsequenceLength(MetacriticFiltered(data, narrow), MetacriticFiltered(data, wide));
    SubsequenceLength(OscarsFiltered(data, narrow), OscarsFiltered(data, wide));
  }

  /** A range whose end lies before its start selects nothing: the engine
      does not reject such criteria, it returns empty views. */
  lemma InvertedRangeIsEmpty(data: seq<Movie>, startDate: Date, endDate: Date)
    requires !DateLe(startDate, endDate)
    ensures DateFiltered(data, startDate, endDate) == []
  {
    FilterKeepsNone(data, InDateRangeP(startDate, endDate));
  }

  /** Year granularity: for calendar dates (month and day at least 1), a
      record of year Y is in range exactly when the start is no later than
      1 January of Y and the end falls in year Y or later. So an end date
      later in Y still admits Y, and a start after 1 January of Y excludes it. */
  lemma InDateRangeByYear(m: Movie, startDate: Date, endDate: Date)
    requires startDate.month >= 1 && startDate.day >= 1
    requires endDate.month >= 1 && endDate.day >= 1
    ensures InDateRange(m, startDate, endDate)
        <==> && (startDate.year < m.year || (startDate.year == m.year && startDate.month == 1 && startDate.day == 1))
             && m.year <= endDate.year
  {
  }
}
