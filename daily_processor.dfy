/** The daily processor's table operations as the script performs them: the history and the
    announcements are lists updated in place, scanned with early exits, and a snapshot is
    folded into them one row at a time. Each operation is proved against the value-level
    model in module Reconciler. */
module DailyProcessor {
  import opened Records
  import opened Seqs
  import opened Upsert
  import opened Lexical
  import opened Reconciler

  /** The history table, loaded once per run and updated in place. */
  class HistoryTable {
    var rows: seq<HistoryRow>

    constructor (rows: seq<HistoryRow>)
      ensures this.rows == rows
    {
      this.rows := rows;
    }
  }

  /** The announcements table, loaded once per run and updated in place. */
  class AnnouncementTable {
    var rows: seq<Announcement>

    constructor (rows: seq<Announcement>)
      ensures this.rows == rows
    {
      this.rows := rows;
    }
  }

  /** Whether a history row records exactly this showtime (date, time, theater and film). */
  method ShowtimeExistsInHistory(showtime: Showtime, history: seq<HistoryRow>) returns (found: bool)
    ensures found <==> exists i :: 0 <= i < |history| && RowKey(history[i]) == KeyOf(showtime)
  {
    var i := 0;
    while i < |history|
      invariant 0 <= i <= |history|
      invariant forall j :: 0 <= j < i ==> RowKey(history[j]) != KeyOf(showtime)
    {
      var row := history[i];
      if row.showtime.date == showtime.date && row.showtime.time == showtime.time
        && row.showtime.theater == showtime.theater && row.showtime.film == showtime.film
      {
        return true;
      }
      i := i + 1;
    }
    return false;
  }

  /** Appends a copy of the showtime, first seen and last updated today, labelled with its
      source. */
  method AddNewShowtime(showtime: Showtime, history: HistoryTable, today: string, source: string)
    modifies history
    ensures history.rows == old(history.rows) + [HistoryRow(showtime, today, today, source)]
  {
    var newShowtime := HistoryRow(showtime, today, today, source);
    history.rows := history.rows + [newShowtime];
  }

  /** Re-stamps `last_updated` of the first row recording this showtime; every other row and
      every other column stays as it was, and nothing changes when no row records it. */
  method UpdateExistingShowtime(showtime: Showtime, history: HistoryTable, today: string)
    modifies history
    ensures var i := FirstIndex(old(history.rows), RowKey, KeyOf(showtime));
      history.rows == if i < |old(history.rows)| then old(history.rows)[i := old(history.rows)[i].(lastUpdated := today)]
                      else old(history.rows)
  {
    var i := 0;
    while i < |history.rows|
      invariant 0 <= i <= |history.rows|
      invariant history.rows == old(history.rows)
      invariant forall j :: 0 <= j < i ==> RowKey(history.rows[j]) != KeyOf(showtime)
    {
      var row := history.rows[i];
      if row.showtime.date == showtime.date && row.showtime.time == showtime.time
        && row.showtime.theater == showtime.theater && row.showtime.film == showtime.film
      {
        history.rows := history.rows[i := row.(lastUpdated := today)];
        break;
      }
      i := i + 1;
    }
  }

  /** Whether an announcement exists for this film at this theater. */
  method MovieExistsInAnnouncements(film: string, theater: string, announcements: seq<Announcement>) returns (found: bool)
    ensures found <==> exists i :: 0 <= i < |announcements| && AnnouncementKey(announcements[i]) == MovieKey(film, theater)
  {
    var i := 0;
    while i < |announcements|
      invariant 0 <= i <= |announcements|
      invariant forall j :: 0 <= j < i ==> AnnouncementKey(announcements[j]) != MovieKey(film, theater)
    {
      var row := announcements[i];
      if row.film == film && row.theater == theater {
        return true;
      }
      i := i + 1;
    }
    return false;
  }

  /** Appends an announcement of the film at the theater, first announced and last seen today. */
  method AddNewMovieAnnouncement(film: string, theater: string, today: string, announcements: AnnouncementTable)
    modifies announcements
    ensures announcements.rows == old(announcements.rows) + [Announcement(film, theater, today, today)]
  {
    var newMovie := Announcement(film, theater, today, today);
    announcements.rows := announcements.rows + [newMovie];
  }

  /** Re-stamps `last_seen_date` of the first announcement of the film at the theater; nothing
      else changes. */
  method UpdateMovieLastSeen(film: string, theater: string, today: string, announcements: AnnouncementTable)
    modifies announcements
    ensures var i := FirstIndex(old(announcements.rows), AnnouncementKey, MovieKey(film, theater));
      announcements.rows == if i < |old(announcements.rows)| then old(announcements.rows)[i := old(announcements.rows)[i].(lastSeen := today)]
                            else old(announcements.rows)
  {
    var i := 0;
    while i < |announcements.rows|
      invariant 0 <= i <= |announcements.rows|
      invariant announcements.rows == old(announcements.rows)
      invariant forall j :: 0 <= j < i ==> AnnouncementKey(announcements.rows[j]) != MovieKey(film, theater)
    {
      var row := announcements.rows[i];
      if row.film == film && row.theater == theater {
        announcements.rows := announcements.rows[i := row.(lastSeen := today)];
        break;
      }
      i := i + 1;
    }
  }

  /** The loop body's history half: a showtime already recorded has its first row re-stamped,
      any other is appended. */
  method RecordShowtime(showtime: Showtime, source: string, history: HistoryTable, today: string)
    modifies history
    ensures var i := FirstIndex(old(history.rows), RowKey, KeyOf(showtime));
      history.rows == if i < |old(history.rows)| then old(history.rows)[i := old(history.rows)[i].(lastUpdated := today)]
                      else old(history.rows) + [HistoryRow(showtime, today, today, source)]
  {
    var known := ShowtimeExistsInHistory(showtime, history.rows);
    if known {
      UpdateExistingShowtime(showtime, history, today);
    } else {
      AddNewShowtime(showtime, history, today, source);
    }
  }

  /** The loop body's announcements half: a film already announced at the theater has its
      first announcement re-stamped, any other is appended. */
  method RecordAnnouncement(showtime: Showtime, announcements: AnnouncementTable, today: string)
    modifies announcements
    ensures var i := FirstIndex(old(announcements.rows), AnnouncementKey, MovieKey(showtime.film, showtime.theater));
      announcements.rows == if i < |old(announcements.rows)| then old(announcements.rows)[i := old(announcements.rows)[i].(lastSeen := today)]
                            else old(announcements.rows) + [Announcement(showtime.film, showtime.theater, today, today)]
  {
    var announced := MovieExistsInAnnouncements(showtime.film, showtime.theater, announcements.rows);
    if !announced {
      AddNewMovieAnnouncement(showtime.film, showtime.theater, today, announcements);
    } else {
      UpdateMovieLastSeen(showtime.film, showtime.theater, today, announcements);
    }
  }

  /** Folds one source's snapshot into both tables, row by row: a known showtime is
      re-stamped, a new one appended; likewise its film at its theater in the announcements.
      The tables end up as the reconciliation model says, so they keep their rows, their
      first-seen dates and their key uniqueness, and cover the snapshot. */
  method ProcessCsvData(snapshot: seq<Showtime>, source: string, history: HistoryTable, announcements: AnnouncementTable, today: string)
    modifies history, announcements
    ensures history.rows == HistoryAfter(old(history.rows), snapshot, source, today)
    ensures announcements.rows == AnnouncementsAfter(old(announcements.rows), snapshot, today)
    ensures UniqueKeys(old(history.rows), RowKey) ==> UniqueKeys(history.rows, RowKey)
    ensures UniqueKeys(old(announcements.rows), AnnouncementKey) ==> UniqueKeys(announcements.rows, AnnouncementKey)
  {
    ghost var history0, announcements0 := history.rows, announcements.rows;
    for n := 0 to |snapshot|
      invariant history.rows == HistoryAfter(history0, snapshot[..n], source, today)
      invariant announcements.rows == AnnouncementsAfter(announcements0, snapshot[..n], today)
    {
      var showtime := snapshot[n];
      RecordShowtime(showtime, source, history, today);
      assert history.rows == HistoryAfter(history0, snapshot[..n + 1], source, today) by {
        HistoryStep(history0, snapshot, n, source, today);
      }
      RecordAnnouncement(showtime, announcements, today);
      assert announcements.rows == AnnouncementsAfter(announcements0, snapshot[..n + 1], today) by {
        AnnouncementsStep(announcements0, snapshot, n, today);
      }
    }
    assert snapshot[..|snapshot|] == snapshot;
    if UniqueKeys(history0, RowKey) {
      HistoryStaysUnique(history0, snapshot, source, today);
    }
    if UniqueKeys(announcements0, AnnouncementKey) {
      AnnouncementsStayUnique(announcements0, snapshot, today);
    }
  }

  /** One day's reconciliation: the independent theaters' snapshot, then the chain's, against
      the same growing tables. A showtime both sources list is recorded once, under the source
      that listed it first. */
  method ProcessDay(indie: seq<Showtime>, amc: seq<Showtime>, history: HistoryTable, announcements: AnnouncementTable, today: string)
    modifies history, announcements
    ensures history.rows == HistoryAfter(HistoryAfter(old(history.rows), indie, "indie", today), amc, "amc", today)
    ensures announcements.rows == AnnouncementsAfter(old(announcements.rows), indie + amc, today)
    ensures UniqueKeys(old(history.rows), RowKey) ==> UniqueKeys(history.rows, RowKey)
    ensures UniqueKeys(old(announcements.rows), AnnouncementKey) ==> UniqueKeys(announcements.rows, AnnouncementKey)
  {
    ProcessCsvData(indie, "indie", history, announcements, today);
    ProcessCsvData(amc, "amc", history, announcements, today);
    AnnouncementsOfTwoSources(old(announcements.rows), indie, amc, today);
  }

  /** The newly announced report: the announcements first announced on or after the cutoff
      date, in table order. */
  method GetNewlyAnnouncedMovies(announcements: seq<Announcement>, cutoff: string) returns (newMovies: seq<Announcement>)
    ensures newMovies == NewlyAnnounced(announcements, cutoff)
    ensures forall a :: a in newMovies <==> a in announcements && AtOrAfter(a.firstAnnounced, cutoff)
  {
    newMovies := [];
    for n := 0 to |announcements|
      invariant newMovies == NewlyAnnounced(announcements[..n], cutoff)
    {
      var row := announcements[n];
      assert announcements[..n + 1] == announcements[..n] + [row];
      NewlyAnnouncedInOrder(announcements[..n], [row], row, cutoff);
      if AtOrAfter(row.firstAnnounced, cutoff) {
        newMovies := newMovies + [row];
      }
    }
    assert announcements[..|announcements|] == announcements;
  }
}
