/** Start-up: the year-ordered dataset and the options and defaults of the
    three filter controls, derived once from the whole dataset. */
module Options {
  import opened Movies
  import opened Seqs
  import opened Engine
  import opened Aggregator

  datatype Result<+T, +E> = Ok(value: T) | Err(error: E)

  /** Building the layout calls `min()` on the score options, which raises
      when no record has a score (an empty dataset included). */
  datatype StartupError = NoScoreOptions

  /** The option lists, the bounds of the date picker and the initial criteria. */
  datatype Controls = Controls(
    scoreOptions: seq<int>,
    oscarOptions: seq<int>,
    minDateAllowed: Date,
    maxDateAllowed: Date,
    defaults: Criteria)

  /** The running application: the prepared dataset and its controls. */
  datatype App = App(data: seq<Movie>, controls: Controls)

  /** The loaded rows, sorted by `Year`. */
  function PrepareData(raw: seq<Movie>): (data: seq<Movie>)
    ensures SortedBy(data, YearKey)
    ensures multiset(data) == multiset(raw)
  {
    SortByCorrect(raw, YearKey);
    SortBy(raw, YearKey)
  }

  /** The `Metacritic Score` column with its NaN entries dropped. */
  function PresentScores(data: seq<Movie>): (r: seq<int>)
    ensures forall x :: x in r <==> exists m :: m in data && m.score == Some(x)
  {
    if data == [] then []
    else
      assert data == [data[0]] + data[1..];
      match data[0].score
      case None => PresentScores(data[1..])
      case Some(x) => [x] + PresentScores(data[1..])
  }

  /** The distinct values of a column in ascending order
      (`sort_values().unique()`); the result has the same values. */
  function SortedDistinct(col: seq<int>): (r: seq<int>)
    ensures StrictlyAscending(r)
    ensures forall x :: x in r <==> x in col
  {
    var sorted := SortBy(col, IntKey);
    SortByCorrect(col, IntKey);
    UniqueOfSorted(sorted);
    assert forall x :: x in sorted <==> x in col by {
      forall x ensures x in sorted <==> x in col {
        assert x in sorted <==> x in multiset(sorted);
        assert x in col <==> x in multiset(col);
      }
    }
    Unique(sorted)
  }

  /** The score dropdown's options: the distinct present scores, ascending. */
  function ScoreOptions(data: seq<Movie>): (r: seq<int>)
    ensures StrictlyAscending(r)
    ensures forall x :: x in r <==> exists m :: m in data && m.score == Some(x)
  {
    SortedDistinct(PresentScores(data))
  }

  /** The Oscars dropdown's options: the distinct Oscar counts, ascending. */
  function OscarOptions(data: seq<Movie>): (r: seq<int>)
    ensures StrictlyAscending(r)
    ensures forall x :: x in r <==> exists m :: m in data && m.oscars == x
  {
    var col := OscarsColumn(data);
    assert forall x :: x in col <==> exists m :: m in data && m.oscars == x by {
      forall x ensures x in col <==> exists m :: m in data && m.oscars == x {
        if x in col {
          var i :| 0 <= i < |col| && col[i] == x;
          assert data[i] in data;
        }
        if exists m :: m in data && m.oscars == x {
          var m :| m in data && m.oscars == x;
          var i :| 0 <= i < |data| && data[i] == m;
          assert col[i] == x;
        }
      }
    }
    SortedDistinct(col)
  }

  /** Python's `min` scan: keeps the running minimum `acc` over `rest`. */
  function MinFrom(acc: int, rest: seq<int>): (r: int)
    ensures r == acc || r in rest
    ensures r <= acc && forall x :: x in rest ==> r <= x
    decreases |rest|
  {
    if rest == [] then acc
    else
      assert rest == [rest[0]] + rest[1..];
      MinFrom(if rest[0] < acc then rest[0] else acc, rest[1..])
  }

  /** Python's `min`; None where it raises on an empty sequence. */
  function MinOf(s: seq<int>): (r: Option<int>)
    ensures r.None? <==> s == []
    ensures r.Some? ==> r.value in s && forall x :: x in s ==> r.value <= x
  {
    if s == [] then None
    else
      assert s == [s[0]] + s[1..];
      Some(MinFrom(s[0], s[1..]))
  }

  /** The running minimum of the `Date` column: `acc` against the dates of `rest`. */
  function EarliestFrom(acc: Date, rest: seq<Movie>): (r: Date)
    ensures r == acc || exists m :: m in rest && ReleaseDate(m) == r
    ensures DateLe(r, acc) && forall m :: m in rest ==> DateLe(r, ReleaseDate(m))
    decreases |rest|
  {
    if rest == [] then acc
    else
      assert rest == [rest[0]] + rest[1..];
      var d := ReleaseDate(rest[0]);
      EarliestFrom(if DateLe(acc, d) then acc else d, rest[1..])
  }

  /** The running maximum of the `Date` column. */
  function LatestFrom(acc: Date, rest: seq<Movie>): (r: Date)
    ensures r == acc || exists m :: m in rest && ReleaseDate(m) == r
    ensures DateLe(acc, r) && forall m :: m in rest ==> DateLe(ReleaseDate(m), r)
    decreases |rest|
  {
    if rest == [] then acc
    else
      assert rest == [rest[0]] + rest[1..];
      var d := ReleaseDate(rest[0]);
      LatestFrom(if DateLe(d, acc) then acc else d, rest[1..])
  }

  /** `data["Date"].min()` of a non-empty dataset: the date of some record,
      no later than any record's date. */
  function EarliestDate(data: seq<Movie>): (r: Date)
    requires data != []
    ensures exists m :: m in data && ReleaseDate(m) == r
    ensures forall m :: m in data ==> DateLe(r, ReleaseDate(m))
  {
    assert data == [data[0]] + data[1..];
    EarliestFrom(ReleaseDate(data[0]), data[1..])
  }

  /** `data["Date"].max()` of a non-empty dataset. */
  function LatestDate(data: seq<Movie>): (r: Date)
    requires data != []
    ensures exists m :: m in data && ReleaseDate(m) == r
    ensures forall m :: m in data ==> DateLe(ReleaseDate(m), r)
  {
    assert data == [data[0]] + data[1..];
    LatestFrom(ReleaseDate(data[0]), data[1..])
  }

  /** Loading: sort the rows, derive the option lists, and build the
      controls with the minimums as dropdown defaults and the whole date
      span as the initial range. Fails exactly when no record has a score. */
  function Initialize(raw: seq<Movie>): (r: Result<App, StartupError>)
    ensures r.Err? <==> forall m :: m in raw ==> m.score.None?
    ensures r.Ok? ==>
      var data, ctl := r.value.data, r.value.controls;
      && SortedBy(data, YearKey) && multiset(data) == multiset(raw)
      && StrictlyAscending(ctl.scoreOptions)
      && (forall x :: x in ctl.scoreOptions <==> exists m :: m in raw && m.score == Some(x))
      && StrictlyAscending(ctl.oscarOptions)
      && (forall x :: x in ctl.oscarOptions <==> exists m :: m in raw && m.oscars == x)
      && ctl.defaults.minScore in ctl.scoreOptions
      && (forall x :: x in ctl.scoreOptions ==> ctl.defaults.minScore <= x)
      && ctl.defaults.minOscars in ctl.oscarOptions
      && (forall x :: x in ctl.oscarOptions ==> ctl.defaults.minOscars <= x)
      && (exists m :: m in raw && ReleaseDate(m) == ctl.minDateAllowed)
      && (forall m :: m in raw ==> DateLe(ctl.minDateAllowed, ReleaseDate(m)))
      && (exists m :: m in raw && ReleaseDate(m) == ctl.maxDateAllowed)
      && (forall m :: m in raw ==> DateLe(ReleaseDate(m), ctl.maxDateAllowed))
      && ctl.defaults.startDate == ctl.minDateAllowed
      && ctl.defaults.endDate == ctl.maxDateAllowed
  {
    var data := PrepareData(raw);
    assert forall m :: m in data <==> m in raw by {
      forall m ensures m in data <==> m in raw {
        assert m in data <==> m in multiset(data);
        assert m in raw <==> m in multiset(raw);
      }
    }
    var scoreOptions, oscarOptions := ScoreOptions(data), OscarOptions(data);
    match MinOf(scoreOptions)
    case None =>
      Err(NoScoreOptions)
    case Some(minScore) =>
      assert scoreOptions[0] in scoreOptions;
      assert data != [];
      assert data[0].oscars in oscarOptions;
      var minOscars := MinOf(oscarOptions).value;
      var first, last := EarliestDate(data), LatestDate(data);
      Ok(App(data, Controls(scoreOptions, oscarOptions, first, last,
                            Criteria(minScore, minOscars, first, last))))
  }

  /** The initial criteria show everything: the date range keeps the whole
      dataset, so the Oscars view is the whole dataset and the score view is
      every record that has a score. */
  lemma DefaultsShowEverything(raw: seq<Movie>)
    requires exists m :: m in raw && m.score.Some?
    ensures Initialize(raw).Ok?
    ensures var app := Initialize(raw).value; var d := app.controls.defaults;
      && DateFiltered(app.data, d.startDate, d.endDate) == app.data
      && OscarsFiltered(app.data, d) == app.data
      && (forall m :: m in MetacriticFiltered(app.data, d) <==> m in app.data && m.score.Some?)
  {
    var app := Initialize(raw).value;
    var d := app.controls.defaults;
    assert forall m :: m in app.data <==> m in raw by {
      forall m ensures m in app.data <==> m in raw {
        assert m in app.data <==> m in multiset(app.data);
        assert m in raw <==> m in multiset(raw);
      }
    }
    FilterKeepsAll(app.data, InDateRangeP(d.startDate, d.endDate));
    assert forall m :: m in app.data ==> m.oscars in app.controls.oscarOptions;
    FilterKeepsAll(app.data, MeetsOscarsP(d.minOscars));
    assert forall m :: m in app.data && m.score.Some? ==> m.score.value in app.controls.scoreOptions;
  }
}
