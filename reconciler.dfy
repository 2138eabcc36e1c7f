/** The daily reconciliation of scraped showtimes into the showtime history and the movie
    announcements, as values: what the two tables are after one source's snapshot, and what
    that guarantees. `today` (the run date, YYYY-MM-DD) is a parameter. */
module Reconciler {
  import opened Records
  import opened Upsert
  import opened Seqs
  import opened Lexical

  /** History: a new showtime is stamped first seen and last updated today with its source;
      a known one has `last_updated` re-stamped. */
  function HistoryPolicy(source: string, today: string): (p: Policy<Showtime, HistoryRow, ShowtimeKey>)
    ensures forall s :: ItemKey(p, s) == KeyOf(s)
    ensures forall s :: p.create(s).showtime == s
    ensures forall r :: p.touch(r).lastUpdated == today && p.key(p.touch(r)) == p.key(r)
  {
    Policy((s: Showtime) => HistoryRow(s, today, today, source), RowKey, (r: HistoryRow) => r.(lastUpdated := today))
  }

  /** Announcements: a new film at a theater is announced and last seen today; a known one has
      `last_seen_date` re-stamped. */
  function AnnouncementPolicy(today: string): (p: Policy<Showtime, Announcement, MovieKey>)
    ensures forall s :: ItemKey(p, s) == MovieKey(s.film, s.theater)
    ensures forall a :: p.touch(a).lastSeen == today && p.key(p.touch(a)) == p.key(a)
  {
    Policy((s: Showtime) => Announcement(s.film, s.theater, today, today), AnnouncementKey, (a: Announcement) => a.(lastSeen := today))
  }

  /** The history after one source's snapshot. */
  function HistoryAfter(history: seq<HistoryRow>, snapshot: seq<Showtime>, source: string, today: string): (h: seq<HistoryRow>)
    ensures |history| <= |h| <= |history| + |snapshot|
  {
    Reconcile(history, snapshot, HistoryPolicy(source, today))
  }

  /** The announcements after one source's snapshot. */
  function AnnouncementsAfter(announcements: seq<Announcement>, snapshot: seq<Showtime>, today: string): (a: seq<Announcement>)
    ensures |announcements| <= |a| <= |announcements| + |snapshot|
  {
    Reconcile(announcements, snapshot, AnnouncementPolicy(today))
  }

  lemma HistoryPolicyLawful(source: string, today: string)
    ensures Lawful(HistoryPolicy(source, today))
  {
  }

  lemma AnnouncementPolicyLawful(today: string)
    ensures Lawful(AnnouncementPolicy(today))
  {
  }

  /** One more snapshot row: a showtime already recorded re-stamps its first row, any other is
      appended. */
  lemma HistoryStep(history: seq<HistoryRow>, snapshot: seq<Showtime>, n: nat, source: string, today: string)
    requires n < |snapshot|
    ensures var h := HistoryAfter(history, snapshot[..n], source, today);
      var i := FirstIndex(h, RowKey, KeyOf(snapshot[n]));
      && (i < |h| <==> exists j :: 0 <= j < |h| && RowKey(h[j]) == KeyOf(snapshot[n]))
      && HistoryAfter(history, snapshot[..n + 1], source, today)
         == if i < |h| then h[i := h[i].(lastUpdated := today)] else h + [HistoryRow(snapshot[n], today, today, source)]
  {
    assert snapshot[..n + 1][..n] == snapshot[..n];
  }

  /** One more snapshot row: a film already announced at the theater re-stamps its first
      announcement, any other is appended. */
  lemma AnnouncementsStep(announcements: seq<Announcement>, snapshot: seq<Showtime>, n: nat, today: string)
    requires n < |snapshot|
    ensures var a := AnnouncementsAfter(announcements, snapshot[..n], today);
      var key := MovieKey(snapshot[n].film, snapshot[n].theater);
      var i := FirstIndex(a, AnnouncementKey, key);
      && (i < |a| <==> exists j :: 0 <= j < |a| && AnnouncementKey(a[j]) == key)
      && AnnouncementsAfter(announcements, snapshot[..n + 1], today)
         == if i < |a| then a[i := a[i].(lastSeen := today)] else a + [Announcement(snapshot[n].film, snapshot[n].theater, today, today)]
  {
    assert snapshot[..n + 1][..n] == snapshot[..n];
  }

  /** Processing never removes or reorders history rows. Of a row that was there before, only
      `last_updated` may change, and only to today; a row whose showtime is not in the
      snapshot stays as it was. At most one row is added per snapshot row. */
  lemma HistoryAppendOnly(history: seq<HistoryRow>, snapshot: seq<Showtime>, source: string, today: string)
    ensures var h := HistoryAfter(history, snapshot, source, today);
      && |history| <= |h| <= |history| + |snapshot|
      && (forall i :: 0 <= i < |history| ==>
            && h[i].showtime == history[i].showtime
            && h[i].firstSeen == history[i].firstSeen
            && h[i].source == history[i].source
            && (h[i].lastUpdated == history[i].lastUpdated || h[i].lastUpdated == today))
      && (forall i :: 0 <= i < |history| && (forall j :: 0 <= j < |snapshot| ==> KeyOf(snapshot[j]) != RowKey(history[i])) ==>
            h[i] == history[i])
  {
    var p := HistoryPolicy(source, today);
    HistoryPolicyLawful(source, today);
    ReconcileKeeps(history, snapshot, p);
    assert forall j :: 0 <= j < |snapshot| ==> ItemKey(p, snapshot[j]) == KeyOf(snapshot[j]);
  }

  /** Processing never removes or reorders announcements. Of an announcement that was there
      before, only `last_seen_date` may change, and only to today; a film and theater not in
      the snapshot stay as they were. */
  lemma AnnouncementsAppendOnly(announcements: seq<Announcement>, snapshot: seq<Showtime>, today: string)
    ensures var a := AnnouncementsAfter(announcements, snapshot, today);
      && |announcements| <= |a| <= |announcements| + |snapshot|
      && (forall i :: 0 <= i < |announcements| ==>
            && a[i].film == announcements[i].film
            && a[i].theater == announcements[i].theater
            && a[i].firstAnnounced == announcements[i].firstAnnounced
            && (a[i].lastSeen == announcements[i].lastSeen || a[i].lastSeen == today))
      && (forall i :: (0 <= i < |announcements| &&
            forall j :: 0 <= j < |snapshot| ==> MovieKey(snapshot[j].film, snapshot[j].theater) != AnnouncementKey(announcements[i])) ==>
            a[i] == announcements[i])
  {
    var p := AnnouncementPolicy(today);
    AnnouncementPolicyLawful(today);
    ReconcileKeeps(announcements, snapshot, p);
    assert forall j :: 0 <= j < |snapshot| ==> ItemKey(p, snapshot[j]) == MovieKey(snapshot[j].film, snapshot[j].theater);
  }

  /** A history without two rows for the same showtime keeps that property. */
  lemma HistoryStaysUnique(history: seq<HistoryRow>, snapshot: seq<Showtime>, source: string, today: string)
    requires UniqueKeys(history, RowKey)
    ensures UniqueKeys(HistoryAfter(history, snapshot, source, today), RowKey)
  {
    HistoryPolicyLawful(source, today);
    ReconcileUnique(history, snapshot, HistoryPolicy(source, today));
  }

  /** An announcements table without two rows for the same film and theater keeps that
      property. */
  lemma AnnouncementsStayUnique(announcements: seq<Announcement>, snapshot: seq<Showtime>, today: string)
    requires UniqueKeys(announcements, AnnouncementKey)
    ensures UniqueKeys(AnnouncementsAfter(announcements, snapshot, today), AnnouncementKey)
  {
    AnnouncementPolicyLawful(today);
    ReconcileUnique(announcements, snapshot, AnnouncementPolicy(today));
  }

  /** Every showtime of the snapshot is in the history afterwards, and its row (the first one
      with its key, which the lookups find) was last updated today; in a history without
      duplicates that is every row with its key. */
  lemma HistoryCoversSnapshot(history: seq<HistoryRow>, snapshot: seq<Showtime>, source: string, today: string)
    ensures var h := HistoryAfter(history, snapshot, source, today);
      forall j :: 0 <= j < |snapshot| ==>
        var i := FirstIndex(h, RowKey, KeyOf(snapshot[j]));
        i < |h| && h[i].lastUpdated == today
    ensures var h := HistoryAfter(history, snapshot, source, today);
      UniqueKeys(history, RowKey) ==>
        forall i, j :: 0 <= i < |h| && 0 <= j < |snapshot| && RowKey(h[i]) == KeyOf(snapshot[j]) ==> h[i].lastUpdated == today
  {
    var p := HistoryPolicy(source, today);
    var h := HistoryAfter(history, snapshot, source, today);
    HistoryPolicyLawful(source, today);
    ReconcileSettles(history, snapshot, p);
    forall j | 0 <= j < |snapshot|
      ensures var i := FirstIndex(h, RowKey, KeyOf(snapshot[j])); i < |h| && h[i].lastUpdated == today
    {
      assert Settled(h, p, ItemKey(p, snapshot[j]));
    }
    if UniqueKeys(history, RowKey) {
      HistoryStaysUnique(history, snapshot, source, today);
      forall i, j | 0 <= i < |h| && 0 <= j < |snapshot| && RowKey(h[i]) == KeyOf(snapshot[j])
        ensures h[i].lastUpdated == today
      {
        var f := FirstIndex(h, RowKey, KeyOf(snapshot[j]));
        assert f <= i;
        assert f == i;
      }
    }
  }

  /** Every film and theater of the snapshot has an announcement afterwards, last seen today. */
  lemma AnnouncementsCoverSnapshot(announcements: seq<Announcement>, snapshot: seq<Showtime>, today: string)
    ensures var a := AnnouncementsAfter(announcements, snapshot, today);
      forall j :: 0 <= j < |snapshot| ==>
        var i := FirstIndex(a, AnnouncementKey, MovieKey(snapshot[j].film, snapshot[j].theater));
        i < |a| && a[i].lastSeen == today
    ensures var a := AnnouncementsAfter(announcements, snapshot, today);
      UniqueKeys(announcements, AnnouncementKey) ==>
        forall i, j :: 0 <= i < |a| && 0 <= j < |snapshot| && a[i].film == snapshot[j].film && a[i].theater == snapshot[j].theater ==>
          a[i].lastSeen == today
  {
    var p := AnnouncementPolicy(today);
    var a := AnnouncementsAfter(announcements, snapshot, today);
    AnnouncementPolicyLawful(today);
    ReconcileSettles(announcements, snapshot, p);
    forall j | 0 <= j < |snapshot|
      ensures var i := FirstIndex(a, AnnouncementKey, MovieKey(snapshot[j].film, snapshot[j].theater)); i < |a| && a[i].lastSeen == today
    {
      assert Settled(a, p, ItemKey(p, snapshot[j]));
    }
    if UniqueKeys(announcements, AnnouncementKey) {
      AnnouncementsStayUnique(announcements, snapshot, today);
      forall i, j | 0 <= i < |a| && 0 <= j < |snapshot| && a[i].film == snapshot[j].film && a[i].theater == snapshot[j].theater
        ensures a[i].lastSeen == today
      {
        var f := FirstIndex(a, AnnouncementKey, MovieKey(snapshot[j].film, snapshot[j].theater));
        assert AnnouncementKey(a[i]) == MovieKey(snapshot[j].film, snapshot[j].theater);
        assert f <= i;
        assert f == i;
      }
    }
  }

  /** Processing the same snapshot again on the same day changes nothing: no row is added and
      no stamp moves, whichever source the second pass is labelled with. */
  lemma HistoryIdempotent(history: seq<HistoryRow>, snapshot: seq<Showtime>, source: string, source': string, today: string)
    ensures var h := HistoryAfter(history, snapshot, source, today);
      HistoryAfter(h, snapshot, source', today) == h
  {
    var p, q := HistoryPolicy(source, today), HistoryPolicy(source', today);
    HistoryPolicyLawful(source, today);
    assert forall x :: ItemKey(q, x) == ItemKey(p, x);
    ReconcileIdempotent(history, snapshot, p, q);
  }

  lemma AnnouncementsIdempotent(announcements: seq<Announcement>, snapshot: seq<Showtime>, today: string)
    ensures var a := AnnouncementsAfter(announcements, snapshot, today);
      AnnouncementsAfter(a, snapshot, today) == a
  {
    var p := AnnouncementPolicy(today);
    AnnouncementPolicyLawful(today);
    ReconcileIdempotent(announcements, snapshot, p, p);
  }

  /** Announcements do not record the source, so two sources processed one after the other
      give the announcements of their combined snapshot. */
  lemma AnnouncementsOfTwoSources(announcements: seq<Announcement>, first: seq<Showtime>, second: seq<Showtime>, today: string)
    ensures AnnouncementsAfter(AnnouncementsAfter(announcements, first, today), second, today)
         == AnnouncementsAfter(announcements, first + second, today)
  {
    ReconcileConcat(announcements, first, second, AnnouncementPolicy(today));
  }

  /** Whether an announcement belongs in the report for the given cutoff date. */
  function AnnouncedSince(cutoff: string): Announcement -> bool
  {
    (a: Announcement) => AtOrAfter(a.firstAnnounced, cutoff)
  }

  /** The newly announced report: the announcements first announced on or after the cutoff
      date, compared as strings, in table order. */
  function NewlyAnnounced(announcements: seq<Announcement>, cutoff: string): (r: seq<Announcement>)
    ensures forall a :: a in r <==> a in announcements && AtOrAfter(a.firstAnnounced, cutoff)
  {
    Filter(announcements, AnnouncedSince(cutoff))
  }

  /** The report keeps table order: it is computed row by row, a row of its own being reported
      exactly when it was first announced on or after the cutoff. */
  lemma NewlyAnnouncedInOrder(front: seq<Announcement>, back: seq<Announcement>, row: Announcement, cutoff: string)
    ensures NewlyAnnounced(front + back, cutoff) == NewlyAnnounced(front, cutoff) + NewlyAnnounced(back, cutoff)
    ensures NewlyAnnounced([row], cutoff) == if AtOrAfter(row.firstAnnounced, cutoff) then [row] else []
  {
    FilterAppend(front, back, AnnouncedSince(cutoff));
    assert [row][..0] == [];
  }

  /** On ISO-dated stamps the string comparison is the calendar one: an announcement is
      reported exactly when it was first announced on the cutoff day or later. */
  lemma NewlyAnnouncedByCalendar(announcements: seq<Announcement>, cutoff: string)
    requires IsIsoDate(cutoff)
    requires forall i :: 0 <= i < |announcements| ==> IsIsoDate(announcements[i].firstAnnounced)
    ensures forall a :: a in NewlyAnnounced(announcements, cutoff) <==>
      a in announcements && !Before(a.firstAnnounced, cutoff)
  {
    forall a | a in announcements
      ensures AtOrAfter(a.firstAnnounced, cutoff) <==> !Before(a.firstAnnounced, cutoff)
    {
      IsoDateOrder(a.firstAnnounced, cutoff);
    }
  }
}
