/** The records, dates and filter criteria of the top-movies explorer. */
module Movies {

  datatype Option<+T> = None | Some(value: T)

  /** A calendar date, compared field by field, year first. */
  datatype Date = Date(year: int, month: int, day: int)

  predicate DateLe(a: Date, b: Date) {
    a.year < b.year || (a.year == b.year && (a.month < b.month || (a.month == b.month && a.day <= b.day)))
  }

  /** A year parsed with the format "%Y": 1 January of that year. */
  function YearStart(year: int): Date {
    Date(year, 1, 1)
  }

  /** One row of the catalog: `Title`, `Year`, `Metacritic Score` (None
      where the file has NaN) and `Oscars Won`. */
  datatype Movie = Movie(title: string, year: int, score: Option<int>, oscars: nat)

  /** The derived `Date` column: the release year at year precision. */
  function ReleaseDate(m: Movie): Date {
    YearStart(m.year)
  }

  /** The sort key of the dataset (`sort_values(by="Year")`). */
  function YearKey(m: Movie): int {
    m.year
  }

  /** The four inputs of the update callback: the minimum Metacritic score,
      the minimum number of Oscars and the two ends of the date range. */
  datatype Criteria = Criteria(minScore: int, minOscars: int, startDate: Date, endDate: Date)
}
