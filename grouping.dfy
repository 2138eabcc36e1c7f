/** The viewer's movie list: the shown rows grouped by film, then by date, then by theater,
    each theater holding the list of start times; the number of shown showtimes per movie;
    and the dates a movie card lists. */
module Grouping {
  import opened Records
  import opened Seqs
  import opened Upsert
  import opened JsObject
  import opened Filters

  /** One film's card: the runtime and poster of the first row of that film, and its times
      keyed by date, then by theater. */
  datatype Movie = Movie(film: string, runtime: string, poster: string, showtimes: Obj<Obj<seq<string>>>)

  ghost predicate MovieValid(m: Movie)
  {
    Valid(m.showtimes) && forall d :: d in m.showtimes.entries ==> Valid(m.showtimes.entries[d])
  }

  /** Every film maps to a well-formed card carrying that film. */
  ghost predicate GroupsValid(g: Obj<Movie>)
  {
    Valid(g) && forall f :: f in g.entries ==> MovieValid(g.entries[f]) && g.entries[f].film == f
  }

  /** The card a new film starts with: the film, runtime and poster of its first row, and
      no times yet. */
  function NewMovie(row: Showtime): (m: Movie)
    ensures MovieValid(m) && m.film == row.film
    ensures m.runtime == row.runtime && m.poster == row.poster
    ensures |m.showtimes.keys| == 0 && forall d :: d !in m.showtimes.entries
  {
    Movie(row.film, row.runtime, row.poster, Empty())
  }

  /** `acc[row.Film]`, or the fresh card the reduce creates when the film has none yet. */
  function CardFor(acc: Obj<Movie>, row: Showtime): (m: Movie)
    ensures row.film in acc.entries ==> m == acc.entries[row.film]
    ensures row.film !in acc.entries ==> m == NewMovie(row)
    ensures GroupsValid(acc) ==> MovieValid(m) && m.film == row.film
  {
    if row.film in acc.entries then acc.entries[row.film] else NewMovie(row)
  }

  /** Files the row's time at the end of the card's list for the row's date and theater,
      creating the date's object and the theater's list when missing. */
  function FileTime(movie: Movie, row: Showtime): (m: Movie)
    ensures m.film == movie.film && m.runtime == movie.runtime && m.poster == movie.poster
    ensures MovieValid(movie) ==> MovieValid(m)
  {
    var byTheater := Lookup(movie.showtimes, row.date, Empty());
    var times := Lookup(byTheater, row.theater, []);
    movie.(showtimes := Put(movie.showtimes, row.date, Put(byTheater, row.theater, times + [row.time])))
  }

  /** Storing a well-formed card under its own film keeps the grouping well formed. */
  lemma PutCard(acc: Obj<Movie>, f: string, m: Movie)
    ensures GroupsValid(acc) && MovieValid(m) && m.film == f ==> GroupsValid(Put(acc, f, m))
  {
  }

  /** One step of the reduce: the row's card, created if missing, with the row's time filed. */
  function AddRow(acc: Obj<Movie>, row: Showtime): (r: Obj<Movie>)
    ensures GroupsValid(acc) ==> GroupsValid(r)
  {
    var card := FileTime(CardFor(acc, row), row);
    PutCard(acc, row.film, card);
    Put(acc, row.film, card)
  }

  /** The whole reduce over the shown rows, in order. */
  function Group(rows: seq<Showtime>): (g: Obj<Movie>)
    ensures GroupsValid(g)
    decreases |rows|
  {
    if |rows| == 0 then Empty() else AddRow(Group(rows[..|rows| - 1]), rows[|rows| - 1])
  }

  /** Creating a missing entry and then overwriting it is writing the final value. */
  lemma PutAgain<V>(o: Obj<V>, o': Obj<V>, k: string, v: V, w: V)
    requires o' == (if k in o.entries then o else Put(o, k, v))
    ensures Put(o', k, w) == Put(o, k, w)
  {
  }

  /** The grouping as the viewer builds it: one accumulator object, its nested objects created
      on first use and each time pushed onto its theater's list; the cards are then the
      accumulator's values, in the order their films first occur. */
  method GroupByFilm(rows: seq<Showtime>) returns (movies: seq<Movie>)
    ensures movies == Values(Group(rows))
  {
    var acc: Obj<Movie> := Empty();
    for n := 0 to |rows|
      invariant acc == Group(rows[..n])
    {
      var row := rows[n];
      assert rows[..n + 1][..n] == rows[..n];
      ghost var acc0 := acc;
      ghost var movie0 := CardFor(acc0, row);
      ghost var byTheater0 := Lookup(movie0.showtimes, row.date, Empty());
      ghost var times0 := Lookup(byTheater0, row.theater, []);

      var key := row.film;
      if key !in acc.entries {
        acc := Put(acc, key, NewMovie(row));
      }
      var movie := acc.entries[key];
      assert movie == movie0;
      if row.date !in movie.showtimes.entries {
        movie := movie.(showtimes := Put(movie.showtimes, row.date, Empty()));
      }
      var byTheater := movie.showtimes.entries[row.date];
      assert byTheater == byTheater0;
      if row.theater !in byTheater.entries {
        byTheater := Put(byTheater, row.theater, []);
      }
      ghost var byTheater1 := byTheater;
      byTheater := Put(byTheater, row.theater, byTheater.entries[row.theater] + [row.time]);
      PutAgain(byTheater0, byTheater1, row.theater, [], times0 + [row.time]);
      assert byTheater == Put(byTheater0, row.theater, times0 + [row.time]);
      ghost var showtimes1 := movie.showtimes;
      movie := movie.(showtimes := Put(movie.showtimes, row.date, byTheater));
      PutAgain(movie0.showtimes, showtimes1, row.date, Empty(), byTheater);
      assert movie == FileTime(movie0, row);
      ghost var acc1 := acc;
      acc := Put(acc, key, movie);
      PutAgain(acc0, acc1, key, NewMovie(row), movie);
      assert acc == AddRow(acc0, row);
    }
    assert rows[..|rows|] == rows;
    movies := Values(acc);
  }

  // ---------------------------------------------------------------------------------------
  // The reduce step as the viewer writes it: `!acc[key]` and `!...[row.Theater]` test
  // truthiness on plain objects, which also see the members every object inherits.

  /** Names a plain object inherits from `Object.prototype` as functions (truthy values). */
  const InheritedNames: set<string> :=
    {"constructor", "hasOwnProperty", "isPrototypeOf", "propertyIsEnumerable", "toLocaleString", "toString", "valueOf"}

  datatype Outcome = Filed(acc: Obj<Movie>) | TypeError

  /** The step as written: a film or theater named like an inherited member, and not yet an own
      key, reads as present; no card (or list) is created, and the next property access on the
      inherited function fails. */
  function AddRowAsWritten(acc: Obj<Movie>, row: Showtime): (r: Outcome)
    ensures r == TypeError || r == Filed(AddRow(acc, row))
    ensures row.film !in acc.entries && row.film in InheritedNames ==> r == TypeError
    ensures row.film in acc.entries && row.film !in InheritedNames ==> r.Filed? || row.theater in InheritedNames
  {
    if row.film !in acc.entries && row.film in InheritedNames then TypeError
    else
      var byTheater := Lookup(CardFor(acc, row).showtimes, row.date, Empty());
      if row.theater !in byTheater.entries && row.theater in InheritedNames then TypeError
      else Filed(AddRow(acc, row))
  }

  /** A first row whose film is called "constructor" stops the grouping. */
  lemma InheritedFilmNameFails()
    ensures AddRowAsWritten(Empty(), Showtime("07/10/2025", "7:00pm", "The Beacon", "constructor", "95", "", "")) == TypeError
  {
  }

  /** Apart from inherited names, the step as written is the own-key step AddRow. */
  lemma AsWrittenIsAddRow(acc: Obj<Movie>, row: Showtime)
    requires row.film !in InheritedNames && row.theater !in InheritedNames
    ensures AddRowAsWritten(acc, row) == Filed(AddRow(acc, row))
  {
  }

  // ---------------------------------------------------------------------------------------
  // What the grouping holds.

  function FilmOf(row: Showtime): string
  {
    row.film
  }

  /** Filing a row adds its film's card if missing, with the row's runtime and poster, and
      leaves every card's runtime and poster as they were. */
  lemma AddRowFilm(acc: Obj<Movie>, row: Showtime, f: string)
    ensures var r := AddRow(acc, row);
      && (f in r.entries <==> f in acc.entries || row.film == f)
      && (f in acc.entries ==> r.entries[f].runtime == acc.entries[f].runtime && r.entries[f].poster == acc.entries[f].poster)
      && (f !in acc.entries && row.film == f ==> r.entries[f].runtime == row.runtime && r.entries[f].poster == row.poster)
  {
  }

  /** There is a card for exactly the films of the rows (the first row of film f, found by
      the same scan the lookups use, exists just when f has a card); each card carries its
      film, and the runtime and poster of the first row of that film. */
  lemma {:induction false} GroupFilms(rows: seq<Showtime>, f: string)
    ensures var i := FirstIndex(rows, FilmOf, f);
      && (f in Group(rows).entries <==> i < |rows|)
      && (i < |rows| ==>
            && Group(rows).entries[f].film == f
            && Group(rows).entries[f].runtime == rows[i].runtime
            && Group(rows).entries[f].poster == rows[i].poster)
    decreases |rows|
  {
    if |rows| > 0 {
      var init, last := rows[..|rows| - 1], rows[|rows| - 1];
      assert rows == init + [last];
      FirstIndexAppend(init, last, FilmOf, f);
      GroupFilms(init, f);
      AddRowFilm(Group(init), last, f);
      var i0 := FirstIndex(init, FilmOf, f);
      if i0 < |init| {
        assert rows[i0] == init[i0];
      }
    }
  }

  /** Filing a row lists its film after the films already listed, when it is new. */
  lemma AddRowKeys(acc: Obj<Movie>, row: Showtime)
    ensures AddRow(acc, row).keys == if row.film in acc.entries then acc.keys else acc.keys + [row.film]
  {
  }

  /** Filing one more row keeps the cards in the order in which their films first occur. */
  lemma GroupOrderStep(init: seq<Showtime>, last: Showtime)
    ensures InFirstOrder(Group(init).keys, (f: string) => f, init, FilmOf) ==>
      InFirstOrder(AddRow(Group(init), last).keys, (f: string) => f, init + [last], FilmOf)
  {
    var acc := Group(init);
    if InFirstOrder(acc.keys, (f: string) => f, init, FilmOf) {
      AddRowKeys(acc, last);
      if last.film in acc.entries {
        InFirstOrderAppend(acc.keys, (f: string) => f, init, last, FilmOf);
      } else {
        GroupFilms(init, last.film);
        InFirstOrderExtend(acc.keys, (f: string) => f, init, last, FilmOf, last.film);
      }
    }
  }

  /** The cards, as `Object.values` lists them, come in the order in which their films first
      occur among the rows. */
  lemma {:induction false} GroupOrder(rows: seq<Showtime>)
    ensures InFirstOrder(Group(rows).keys, (f: string) => f, rows, FilmOf)
    decreases |rows|
  {
    if |rows| > 0 {
      var init, last := rows[..|rows| - 1], rows[|rows| - 1];
      assert rows == init + [last];
      GroupOrder(init);
      GroupOrderStep(init, last);
    }
  }

  /** A film and a date of one row: the pair a card's date entries are created for. */
  function FilmDate(row: Showtime): (string, string)
  {
    (row.film, row.date)
  }

  function PairWith(f: string): string -> (string, string)
  {
    d => (f, d)
  }

  /** The dates object of film f's card, or an empty one when f has no card. */
  function DatesOf(g: Obj<Movie>, f: string): Obj<Obj<seq<string>>>
  {
    if f in g.entries then g.entries[f].showtimes else Empty()
  }

  /** Filing a row adds its date to its own film's card, after the dates already there, when
      it is new to that card; no other card's dates change. */
  lemma AddRowDates(acc: Obj<Movie>, row: Showtime, f: string)
    ensures var before, after := DatesOf(acc, f), DatesOf(AddRow(acc, row), f);
      && (forall d :: d in after.entries <==> d in before.entries || (row.film == f && row.date == d))
      && after.keys == if row.film == f && row.date !in before.entries then before.keys + [row.date] else before.keys
  {
  }

  /** A card has an entry for exactly the dates its film's rows carry. */
  lemma {:induction false} GroupDateMembers(rows: seq<Showtime>, f: string, d: string)
    ensures d in DatesOf(Group(rows), f).entries <==> FirstIndex(rows, FilmDate, (f, d)) < |rows|
    decreases |rows|
  {
    if |rows| > 0 {
      var init, last := rows[..|rows| - 1], rows[|rows| - 1];
      assert rows == init + [last];
      GroupDateMembers(init, f, d);
      AddRowDates(Group(init), last, f);
      FirstIndexAppend(init, last, FilmDate, (f, d));
    }
  }

  /** A card lists its dates in the order in which they first occur among its film's rows. */
  lemma {:induction false} GroupDates(rows: seq<Showtime>, f: string)
    ensures InFirstOrder(DatesOf(Group(rows), f).keys, PairWith(f), rows, FilmDate)
    decreases |rows|
  {
    if |rows| > 0 {
      var init, last := rows[..|rows| - 1], rows[|rows| - 1];
      assert rows == init + [last];
      var before := DatesOf(Group(init), f);
      GroupDates(init, f);
      AddRowDates(Group(init), last, f);
      if last.film == f && last.date !in before.entries {
        GroupDateMembers(init, f, last.date);
        InFirstOrderExtend(before.keys, PairWith(f), init, last, FilmDate, last.date);
      } else {
        InFirstOrderAppend(before.keys, PairWith(f), init, last, FilmDate);
      }
    }
  }

  /** With no date selected, a card lists exactly its film's dates, in the order they first
      occur among the shown rows. */
  lemma AllDatesInFirstOrder(rows: seq<Showtime>, f: string)
    ensures f in Group(rows).entries ==>
      var dates := DatesToShow(Group(rows).entries[f], []);
      && (forall d :: d in dates <==> FirstIndex(rows, FilmDate, (f, d)) < |rows|)
      && (forall i, j :: 0 <= i < j < |dates| ==>
            FirstIndex(rows, FilmDate, (f, dates[i])) < FirstIndex(rows, FilmDate, (f, dates[j])))
  {
    if f in Group(rows).entries {
      GroupDates(rows, f);
      forall d
        ensures d in DatesToShow(Group(rows).entries[f], []) <==> FirstIndex(rows, FilmDate, (f, d)) < |rows|
      {
        GroupDateMembers(rows, f, d);
      }
    }
  }

  /** The times a card lists for a date and theater. */
  function CardTimes(m: Movie, d: string, t: string): seq<string>
  {
    Lookup(Lookup(m.showtimes, d, Empty()), t, [])
  }

  /** The times filed for a film at a date and theater. */
  function TimesAt(g: Obj<Movie>, f: string, d: string, t: string): seq<string>
  {
    if f in g.entries then CardTimes(g.entries[f], d, t) else []
  }

  /** The times of the rows of a film at a date and theater, in row order. */
  function TimesOf(rows: seq<Showtime>, f: string, d: string, t: string): seq<string>
    decreases |rows|
  {
    if |rows| == 0 then []
    else
      var last := rows[|rows| - 1];
      TimesOf(rows[..|rows| - 1], f, d, t) + (if last.film == f && last.date == d && last.theater == t then [last.time] else [])
  }

  lemma FileTimeTimes(movie: Movie, row: Showtime, d: string, t: string)
    ensures CardTimes(FileTime(movie, row), d, t)
         == CardTimes(movie, d, t) + (if row.date == d && row.theater == t then [row.time] else [])
  {
  }

  lemma AddRowTimes(acc: Obj<Movie>, row: Showtime, f: string, d: string, t: string)
    ensures TimesAt(AddRow(acc, row), f, d, t)
         == TimesAt(acc, f, d, t) + (if row.film == f && row.date == d && row.theater == t then [row.time] else [])
  {
    if row.film == f {
      FileTimeTimes(CardFor(acc, row), row, d, t);
    }
  }

  /** Each row's time is filed, in row order, under its own film, date and theater, and
      nowhere else. */
  lemma {:induction false} GroupTimes(rows: seq<Showtime>, f: string, d: string, t: string)
    ensures TimesAt(Group(rows), f, d, t) == TimesOf(rows, f, d, t)
    decreases |rows|
  {
    if |rows| > 0 {
      GroupTimes(rows[..|rows| - 1], f, d, t);
      AddRowTimes(Group(rows[..|rows| - 1]), rows[|rows| - 1], f, d, t);
    }
  }

  // ---------------------------------------------------------------------------------------
  // Counting the shown showtimes of a card.

  function TheaterCounter(selectedTheaters: seq<string>): (string, seq<string>) -> int
  {
    (theater: string, times: seq<string>) => if Selected(selectedTheaters, theater) then |times| else 0
  }

  function DateCounter(selectedTheaters: seq<string>, selectedDates: seq<string>): (string, Obj<seq<string>>) -> int
  {
    (date: string, byTheater: Obj<seq<string>>) =>
      if Selected(selectedDates, date) then Sum(byTheater, TheaterCounter(selectedTheaters)) else 0
  }

  /** The number of times a card lists at the selected dates and theaters. */
  function ShowtimeCount(m: Movie, selectedTheaters: seq<string>, selectedDates: seq<string>): int
  {
    Sum(m.showtimes, DateCounter(selectedTheaters, selectedDates))
  }

  /** The count computed with nested loops over the card's dates and theaters. */
  method MovieShowtimeCount(movie: Movie, selectedTheaters: seq<string>, selectedDates: seq<string>) returns (count: int)
    requires MovieValid(movie)
    ensures count == ShowtimeCount(movie, selectedTheaters, selectedDates)
  {
    count := 0;
    var dates := movie.showtimes.keys;
    for i := 0 to |dates|
      invariant count == SumOver(dates[..i], movie.showtimes.entries, DateCounter(selectedTheaters, selectedDates))
    {
      var date := dates[i];
      assert dates[..i + 1][..i] == dates[..i];
      var theatersObj := movie.showtimes.entries[date];
      if |selectedDates| == 0 || date in selectedDates {
        ghost var before := count;
        var theaters := theatersObj.keys;
        for j := 0 to |theaters|
          invariant count == before + SumOver(theaters[..j], theatersObj.entries, TheaterCounter(selectedTheaters))
        {
          var theater := theaters[j];
          assert theaters[..j + 1][..j] == theaters[..j];
          var times := theatersObj.entries[theater];
          if |selectedTheaters| == 0 || theater in selectedTheaters {
            count := count + |times|;
          }
        }
        assert theaters[..|theaters|] == theaters;
        assert count == before + Sum(theatersObj, TheaterCounter(selectedTheaters));
      }
      assert count == SumOver(dates[..i], movie.showtimes.entries, DateCounter(selectedTheaters, selectedDates))
                      + DateCounter(selectedTheaters, selectedDates)(date, theatersObj);
    }
    assert dates[..|dates|] == dates;
  }

  /** `movies.map(...)`: the count of each card, in card order. */
  method MovieShowtimeCounts(movies: seq<Movie>, selectedTheaters: seq<string>, selectedDates: seq<string>) returns (counts: seq<int>)
    requires forall i :: 0 <= i < |movies| ==> MovieValid(movies[i])
    ensures |counts| == |movies|
    ensures forall i :: 0 <= i < |movies| ==> counts[i] == ShowtimeCount(movies[i], selectedTheaters, selectedDates)
  {
    counts := [];
    for n := 0 to |movies|
      invariant |counts| == n
      invariant forall i :: 0 <= i < n ==> counts[i] == ShowtimeCount(movies[i], selectedTheaters, selectedDates)
    {
      var count := MovieShowtimeCount(movies[n], selectedTheaters, selectedDates);
      counts := counts + [count];
    }
  }

  function FilmCount(g: Obj<Movie>, f: string, selectedTheaters: seq<string>, selectedDates: seq<string>): int
  {
    if f in g.entries then ShowtimeCount(g.entries[f], selectedTheaters, selectedDates) else 0
  }

  /** The number of rows of a film. */
  function RowsOfFilm(rows: seq<Showtime>, f: string): nat
    decreases |rows|
  {
    if |rows| == 0 then 0
    else RowsOfFilm(rows[..|rows| - 1], f) + (if rows[|rows| - 1].film == f then 1 else 0)
  }

  /** Filing a time that passes the filter adds one to the card's count. */
  lemma FileTimeCount(movie: Movie, row: Showtime, selectedTheaters: seq<string>, selectedDates: seq<string>)
    requires MovieValid(movie)
    requires Keep(row, selectedTheaters, selectedDates)
    ensures ShowtimeCount(FileTime(movie, row), selectedTheaters, selectedDates)
         == ShowtimeCount(movie, selectedTheaters, selectedDates) + 1
  {
    var byTheater := Lookup(movie.showtimes, row.date, Empty());
    var times := Lookup(byTheater, row.theater, []);
    var byTheater' := Put(byTheater, row.theater, times + [row.time]);
    SumPut(byTheater, row.theater, times + [row.time], TheaterCounter(selectedTheaters));
    SumPut(movie.showtimes, row.date, byTheater', DateCounter(selectedTheaters, selectedDates));
  }

  /** Filing a row that passes the filter adds one to its film's count and leaves the other
      films' counts alone. */
  lemma AddRowCount(acc: Obj<Movie>, row: Showtime, f: string, selectedTheaters: seq<string>, selectedDates: seq<string>)
    requires GroupsValid(acc)
    requires Keep(row, selectedTheaters, selectedDates)
    ensures FilmCount(AddRow(acc, row), f, selectedTheaters, selectedDates)
         == FilmCount(acc, f, selectedTheaters, selectedDates) + (if row.film == f then 1 else 0)
  {
    if row.film == f {
      FileTimeCount(CardFor(acc, row), row, selectedTheaters, selectedDates);
    }
  }

  /** When every row passes the filter the counts are taken with, a film's count is its
      number of rows. */
  lemma {:induction false} CountIsRowsOfFilm(rows: seq<Showtime>, f: string, selectedTheaters: seq<string>, selectedDates: seq<string>)
    requires forall i :: 0 <= i < |rows| ==> Keep(rows[i], selectedTheaters, selectedDates)
    ensures FilmCount(Group(rows), f, selectedTheaters, selectedDates) == RowsOfFilm(rows, f)
    decreases |rows|
  {
    if |rows| > 0 {
      var init := rows[..|rows| - 1];
      CountIsRowsOfFilm(init, f, selectedTheaters, selectedDates);
      AddRowCount(Group(init), rows[|rows| - 1], f, selectedTheaters, selectedDates);
    }
  }

  /** The count shown for each card of the filtered grouping is the number of shown rows of
      its film: the per-card filter repeats the one the rows already passed. */
  lemma ShownCountsAreRows(rows: seq<Showtime>, selectedTheaters: seq<string>, selectedDates: seq<string>)
    ensures var shown := Filtered(rows, selectedTheaters, selectedDates);
      var cards := Values(Group(shown));
      forall i :: 0 <= i < |cards| ==> ShowtimeCount(cards[i], selectedTheaters, selectedDates) == RowsOfFilm(shown, cards[i].film)
  {
    var shown := Filtered(rows, selectedTheaters, selectedDates);
    var g := Group(shown);
    forall i | 0 <= i < |g.keys|
      ensures ShowtimeCount(g.entries[g.keys[i]], selectedTheaters, selectedDates) == RowsOfFilm(shown, g.entries[g.keys[i]].film)
    {
      CountIsRowsOfFilm(shown, g.keys[i], selectedTheaters, selectedDates);
    }
  }

  /** Every card's full count, nothing deselected. */
  function TotalTimes(g: Obj<Movie>): int
  {
    Sum(g, (f: string, m: Movie) => ShowtimeCount(m, [], []))
  }

  /** Across all cards there are exactly as many times as rows. */
  lemma {:induction false} GroupTotal(rows: seq<Showtime>)
    ensures TotalTimes(Group(rows)) == |rows|
    decreases |rows|
  {
    if |rows| > 0 {
      var init, row := rows[..|rows| - 1], rows[|rows| - 1];
      var acc := Group(init);
      GroupTotal(init);
      AddRowCount(acc, row, row.film, [], []);
      SumPut(acc, row.film, AddRow(acc, row).entries[row.film], (f: string, m: Movie) => ShowtimeCount(m, [], []));
    }
  }

  // ---------------------------------------------------------------------------------------
  // The dates a card lists.

  function HasDate(movie: Movie): string -> bool
  {
    d => d in movie.showtimes.entries
  }

  /** The selected dates the film has times on, in selection order; with no date selected,
      all of the film's dates in the order they were first filed (AllDatesInFirstOrder). */
  function DatesToShow(movie: Movie, selectedDates: seq<string>): (r: seq<string>)
    ensures Valid(movie.showtimes) ==>
      forall d :: d in r <==> d in movie.showtimes.entries && Selected(selectedDates, d)
    ensures |selectedDates| > 0 ==> |r| <= |selectedDates|
  {
    if |selectedDates| > 0 then Filter(selectedDates, HasDate(movie)) else movie.showtimes.keys
  }

  /** A card lists each date once, given a selection that holds no date twice. */
  lemma DatesToShowDistinct(movie: Movie, selectedDates: seq<string>)
    requires Valid(movie.showtimes) && Distinct(selectedDates)
    ensures Distinct(DatesToShow(movie, selectedDates))
  {
    if |selectedDates| > 0 {
      FilterDistinct(selectedDates, HasDate(movie));
    }
  }

  /** Selected dates keep their selection order on the card. */
  lemma DatesToShowInOrder(movie: Movie, front: seq<string>, back: seq<string>)
    requires |front| > 0 && |back| > 0
    ensures DatesToShow(movie, front + back) == DatesToShow(movie, front) + DatesToShow(movie, back)
  {
    FilterAppend(front, back, HasDate(movie));
  }
}
