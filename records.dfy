/** The rows of the showtime tables. Every column is text, as read from and written to CSV. */
module Records {

  /** One scraped showtime, as a snapshot row lists it: `Date` (MM/DD/YYYY), `Time`,
      `Theater`, `Film`, `Runtime`, `isAlmostSoldOut` and `posterDynamic`. */
  datatype Showtime = Showtime(
    date: string,
    time: string,
    theater: string,
    film: string,
    runtime: string,
    almostSoldOut: string,
    poster: string)

  /** The identity of a showtime: exact equality on these four columns. */
  datatype ShowtimeKey = ShowtimeKey(date: string, time: string, theater: string, film: string)

  function KeyOf(s: Showtime): ShowtimeKey
  {
    ShowtimeKey(s.date, s.time, s.theater, s.film)
  }

  /** A row of the history table: the showtime's columns followed by `first_seen_date`,
      `last_updated` and `source`. */
  datatype HistoryRow = HistoryRow(showtime: Showtime, firstSeen: string, lastUpdated: string, source: string)

  function RowKey(r: HistoryRow): ShowtimeKey
  {
    KeyOf(r.showtime)
  }

  /** The identity of an announcement: a film at a theater. */
  datatype MovieKey = MovieKey(film: string, theater: string)

  /** A row of the announcements table: `Film`, `Theater`, `first_announced_date`,
      `last_seen_date`. */
  datatype Announcement = Announcement(film: string, theater: string, firstAnnounced: string, lastSeen: string)

  function AnnouncementKey(a: Announcement): MovieKey
  {
    MovieKey(a.film, a.theater)
  }
}
