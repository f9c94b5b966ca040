/**
 * What the passes of a scan over the held set do to each torrent, told without their own terms: who leaves and who
 * must stay, what is stamped, refreshed and recorded.
 */
module Passes {
  import opened Words
  import opened Sorting
  import opened Holdings
  import opened StateFile
  import opened Displacement
  import opened Acting
  import opened Maintenance
  import opened Daemon

  // ---- what one operation does ----

  /** A departure takes out that torrent alone and records what it was. */
  lemma DepartureExactly(cfg: Config, b: Books, h: Hash, cause: Cause, at: int, g: Hash)
    requires h in b.held && b.held[h].hash == h
    ensures var after := Apply(cfg, b, Leave(h, cause, at));
            && (g in after.held <==> g in b.held && g != h)
            && (g in after.held ==> after.held[g] == b.held[g])
            && after.quarantined == b.quarantined
            && |after.ledger| == |b.ledger| + 1 && after.ledger[..|b.ledger|] == b.ledger
            && after.ledger[|b.ledger|] == Remove(h, b.held[h].size, b.held[h].seeders, b.held[h].location, cause)
  {
  }

  /** The facts that never change while a torrent is held. */
  predicate SameTorrent(t: Torrent, u: Torrent) {
    t.hash == u.hash && t.size == u.size && t.location == u.location && t.pieces == u.pieces && t.addedAt == u.addedAt
  }

  /** A scrape replaces the seeder count; verified bytes move with their clock only when they grew or were never stamped. */
  lemma RefreshExactly(t: Torrent, seeders: Option<nat>, progress: nat, now: int)
    ensures var u := Refreshed(t, seeders, progress, now);
            && SameTorrent(t, u) && u.confirmedAt == t.confirmedAt
            && u.seeders == (if seeders.Some? then seeders.value else t.seeders)
            && (progress > t.completed || t.progressAt == None ==> u.completed == progress && u.progressAt == Some(now))
            && (progress <= t.completed && t.progressAt != None ==> u.completed == t.completed && u.progressAt == t.progressAt)
  {
  }

  // ---- the removed-from-catalog pass ----

  /**
   * A held torrent leaves as delisted exactly when removal is on, the catalog still lists at least the guarded share
   * of the held set, it does not list this one, and the grace window has passed since it last did, or since the
   * torrent came. All others stay as they were.
   */
  lemma DelistedLeaveExactly(cfg: Config, b: Books, s: ScanInput, h: Hash)
    requires Keyed(b.held) && ListsAll(s.removeOrder) && h in b.held
    ensures var t, after := b.held[h], AfterRemoval(cfg, b, s);
            && (h !in after.held <==>
                  && !cfg.preserveDeleted
                  && (cfg.collapsePercent > 0 ==>
                        |s.catalog * b.held.Keys| >= 1 && |s.catalog * b.held.Keys| >= |b.held| * cfg.collapsePercent / 100)
                  && h !in s.catalog
                  && s.removeAt - (if t.confirmedAt.Some? then t.confirmedAt.value else t.addedAt) >= cfg.vanishedTimeout)
            && (h in after.held ==> after.held[h] == t)
            && after.held.Keys <= b.held.Keys && after.quarantined == b.quarantined
  {
    var ts := s.removeOrder(b.held);
    assert Lists(ts, b.held);
    var gone := RemovedByCatalog(cfg, ts, s.catalog, s.removeAt);
    RemovedAreDrawn(cfg, ts, s.catalog, s.removeAt, b.held);
    LeaveTogether(cfg, b, gone, DeletedFromCatalog, s.removeAt);
    ListedTorrent(ts, b.held, h);
    GoneByHash(gone, b.held, h);
    ListedCount(ts, b.held);
  }

  lemma ListedCount(ts: seq<Torrent>, held: map<Hash, Torrent>)
    requires Lists(ts, held)
    ensures |ts| == |held| && HashSet(ts) == held.Keys
  {
    CountDrawn(ts, held);
    NothingLeft(held);
  }

  lemma ListedTorrent(ts: seq<Torrent>, held: map<Hash, Torrent>, h: Hash)
    requires Lists(ts, held) && h in held
    ensures held[h] in ts && held[h].hash == h
  {
    HashSetHas(ts, h);
    DrawnIsDistinct(ts, held);
    var i :| 0 <= i < |ts| && ts[i].hash == h;
    assert IsHeld(ts[i], held);
  }

  lemma GoneByHash(gone: seq<Torrent>, held: map<Hash, Torrent>, h: Hash)
    requires Drawn(gone, held) && h in held && held[h].hash == h
    ensures h in HashSet(gone) <==> held[h] in gone
  {
    HashSetHas(gone, h);
    DrawnIsDistinct(gone, held);
    if h in HashSet(gone) {
      var i :| 0 <= i < |gone| && gone[i].hash == h;
      assert IsHeld(gone[i], held);
    }
  }

  /** What left since: one event for each torrent gone, saying what was held of it and why it left. */
  predicate RecordedSince(before: Books, after: Books, cause: Cause) {
    && after.held.Keys <= before.held.Keys
    && |before.ledger| <= |after.ledger| && after.ledger[..|before.ledger|] == before.ledger
    && |after.ledger| - |before.ledger| == |before.held| - |after.held|
    && (forall k :: |before.ledger| <= k < |after.ledger| ==> Departed(before, after, after.ledger[k], cause))
  }

  predicate Departed(before: Books, after: Books, e: Event, cause: Cause) {
    && e.Remove? && e.hash in before.held && e.hash !in after.held && e.cause == cause
    && e.size == before.held[e.hash].size && e.seeders == before.held[e.hash].seeders && e.location == before.held[e.hash].location
  }

  lemma OneMoreRecorded(cfg: Config, before: Books, mid: Books, t: Torrent, cause: Cause, at: int)
    requires RecordedSince(before, mid, cause)
    requires t.hash in mid.held && mid.held[t.hash] == t && t.hash in before.held && before.held[t.hash] == t
    ensures RecordedSince(before, Apply(cfg, mid, Leave(t.hash, cause, at)), cause)
  {
    var after := Apply(cfg, mid, Leave(t.hash, cause, at));
    assert after.held.Keys == mid.held.Keys - {t.hash};
    CountKeys(mid.held);
    CountKeys(after.held);
    forall k | |before.ledger| <= k < |after.ledger| ensures Departed(before, after, after.ledger[k], cause) {
      assert k < |mid.ledger| ==> after.ledger[k] == mid.ledger[k];
    }
  }

  lemma CountKeys(held: map<Hash, Torrent>)
    ensures |held| == |held.Keys|
  {
  }

  lemma {:induction false} LeavesAreRecorded(cfg: Config, b: Books, ts: seq<Torrent>, cause: Cause, at: int)
    requires Drawn(ts, b.held) && InTime(cfg, ts, cause, at)
    ensures RecordedSince(b, Run(cfg, b, LeaveOps(ts, cause, at)), cause)
  {
    if ts != [] {
      var rest, t := ts[..|ts| - 1], ts[|ts| - 1];
      LeavesAreRecorded(cfg, b, rest, cause, at);
      LeaveInTurn(cfg, b, rest, cause, at);
      RunSnoc(cfg, b, LeaveOps(rest, cause, at), Leave(t.hash, cause, at));
      OneMoreRecorded(cfg, b, Run(cfg, b, LeaveOps(rest, cause, at)), t, cause, at);
    }
  }

  /** The removal pass records exactly those it takes, as deleted from the catalog. */
  lemma DelistedAreRecorded(cfg: Config, b: Books, s: ScanInput)
    requires Keyed(b.held) && ListsAll(s.removeOrder)
    ensures RecordedSince(b, AfterRemoval(cfg, b, s), DeletedFromCatalog)
  {
    var ts := s.removeOrder(b.held);
    assert Lists(ts, b.held);
    var gone := RemovedByCatalog(cfg, ts, s.catalog, s.removeAt);
    RemovedAreDrawn(cfg, ts, s.catalog, s.removeAt, b.held);
    EachInTime(cfg, gone, DeletedFromCatalog, s.removeAt);
    LeavesAreRecorded(cfg, b, gone, DeletedFromCatalog, s.removeAt);
  }

  // ---- the confirmation stamps ----

  /** Exactly the listed torrents are stamped, unless their stamp is no older; nothing else of any torrent moves. */
  lemma ConfirmedExactly(cfg: Config, b: Books, s: ScanInput, h: Hash)
    requires Keyed(AfterRemoval(cfg, b, s).held) && h in AfterRemoval(cfg, b, s).held
    ensures var t := AfterRemoval(cfg, b, s).held[h];
            && AfterConfirm(cfg, b, s).held.Keys == AfterRemoval(cfg, b, s).held.Keys
            && var u := AfterConfirm(cfg, b, s).held[h];
               && SameTorrent(t, u) && u.seeders == t.seeders && u.completed == t.completed && u.progressAt == t.progressAt
               && (h in s.catalog && (t.confirmedAt == None || t.confirmedAt.value < s.confirmAt) ==> u.confirmedAt == Some(s.confirmAt))
               && (h !in s.catalog || (t.confirmedAt != None && t.confirmedAt.value >= s.confirmAt) ==> u.confirmedAt == t.confirmedAt)
  {
  }

  // ---- the seeder refresh ----

  predicate OneEach(ups: seq<Update>) {
    forall i, j :: 0 <= i < j < |ups| ==> ups[i].hash != ups[j].hash
  }

  predicate AllAmong(ups: seq<Update>, hashes: set<Hash>) {
    forall i :: 0 <= i < |ups| ==> ups[i].hash in hashes
  }

  lemma {:induction false} RefreshUpdatesAre(ts: seq<Torrent>, answer: Hash -> Answer, now: int, held: map<Hash, Torrent>)
    requires Drawn(ts, held)
    ensures OneEach(RefreshUpdates(ts, answer, now)) && AllAmong(RefreshUpdates(ts, answer, now), HashSet(ts))
  {
    if ts != [] {
      var rest, h := ts[..|ts| - 1], ts[|ts| - 1].hash;
      RefreshUpdatesAre(rest, answer, now, held);
      OneMoreUpdate(RefreshUpdates(rest, answer, now), HashSet(rest), Update(h, RefreshWith(answer(h), now)));
      assert RefreshUpdates(rest, answer, now) + [] == RefreshUpdates(rest, answer, now);
    }
  }

  lemma OneMoreUpdate(ups: seq<Update>, hashes: set<Hash>, u: Update)
    requires OneEach(ups) && AllAmong(ups, hashes) && u.hash !in hashes
    ensures OneEach(ups + [u]) && AllAmong(ups + [u], hashes + {u.hash}) && AllAmong(ups, hashes + {u.hash})
  {
  }

  lemma {:induction false} RefreshUpdateOf(ts: seq<Torrent>, answer: Hash -> Answer, now: int, h: Hash)
    ensures var ups := RefreshUpdates(ts, answer, now);
            && (h in HashSet(ts) && answer(h).seeders.Some? ==> exists i :: 0 <= i < |ups| && ups[i] == Update(h, RefreshWith(answer(h), now)))
            && (forall i :: 0 <= i < |ups| && ups[i].hash == h ==>
                  answer(h).seeders.Some? && ups[i] == Update(h, RefreshWith(answer(h), now)))
  {
    if ts != [] {
      var front := RefreshUpdates(ts[..|ts| - 1], answer, now);
      RefreshUpdateOf(ts[..|ts| - 1], answer, now, h);
      var ups := RefreshUpdates(ts, answer, now);
      if h == ts[|ts| - 1].hash && answer(h).seeders.Some? {
        assert ups[|ups| - 1] == Update(h, RefreshWith(answer(h), now));
      } else if h in HashSet(ts) && answer(h).seeders.Some? {
        var i :| 0 <= i < |front| && front[i] == Update(h, RefreshWith(answer(h), now));
        assert ups[i] == front[i];
      }
    }
  }

  /** Exactly the torrents whose metadata and scrape were had are refreshed, with their own answers. */
  lemma RefreshedExactly(cfg: Config, b: Books, s: ScanInput, h: Hash)
    requires ListsAll(s.refreshOrder) && Keyed(AfterConfirm(cfg, b, s).held) && h in AfterConfirm(cfg, b, s).held
    ensures var t, a := AfterConfirm(cfg, b, s).held[h], s.answers(h);
            && AfterRefresh(cfg, b, s).held.Keys == AfterConfirm(cfg, b, s).held.Keys
            && AfterRefresh(cfg, b, s).quarantined == AfterConfirm(cfg, b, s).quarantined
            && var u := AfterRefresh(cfg, b, s).held[h];
               && SameTorrent(t, u) && u.confirmedAt == t.confirmedAt
               && (a.seeders == None ==> u == t)
               && (a.seeders != None ==>
                     && u.seeders == a.seeders.value
                     && (a.progress > t.completed || t.progressAt == None ==> u.completed == a.progress && u.progressAt == Some(s.refreshAt))
                     && (a.progress <= t.completed && t.progressAt != None ==> u.completed == t.completed && u.progressAt == t.progressAt))
  {
    var held := AfterConfirm(cfg, b, s).held;
    var ts := s.refreshOrder(held);
    assert Lists(ts, held);
    var ups := RefreshUpdates(ts, s.answers, s.refreshAt);
    RefreshIsRun(cfg, AfterConfirm(cfg, b, s), ts, s.answers, s.refreshAt);
    RefreshUpdatesAre(ts, s.answers, s.refreshAt, held);
    RefreshUpdateOf(ts, s.answers, s.refreshAt, h);
    UpdatedEach(held, ups, h);
    if s.answers(h).seeders != None {
      var i :| 0 <= i < |ups| && ups[i] == Update(h, RefreshWith(s.answers(h), s.refreshAt));
      RefreshExactly(held[h], s.answers(h).seeders, s.answers(h).progress, s.refreshAt);
    }
  }

  // ---- the stall eviction ----

  /**
   * A held torrent leaves as stalled exactly when the eviction is on, the catalog lists it, its progress was ever
   * stamped and the timeout has passed since, and it is neither being checked nor finished nor all there. All others
   * stay as they were.
   */
  lemma StalledLeaveExactly(cfg: Config, b: Books, s: ScanInput, h: Hash)
    requires ListsAll(s.stallOrder) && Keyed(AfterRefresh(cfg, b, s).held) && h in AfterRefresh(cfg, b, s).held
    ensures var t, after := AfterRefresh(cfg, b, s).held[h], AfterStalls(cfg, b, s);
            && (h !in after.held <==>
                  && cfg.stallTimeout > 0
                  && h in s.catalog
                  && t.progressAt != None && s.stallAt - t.progressAt.value >= cfg.stallTimeout
                  && !s.views(h).checking && !s.views(h).finished && s.views(h).progress < t.size)
            && (h in after.held ==> after.held[h] == t)
            && after.held.Keys <= AfterRefresh(cfg, b, s).held.Keys
            && after.quarantined == AfterRefresh(cfg, b, s).quarantined
  {
    var books := AfterRefresh(cfg, b, s);
    if cfg.stallTimeout > 0 {
      var ts := s.stallOrder(books.held);
      assert Lists(ts, books.held);
      FilterDrawn(ts, (t: Torrent) => HasStalled(t, s.catalog, s.stallAt, cfg.stallTimeout, s.views(t.hash)), books.held);
      LeaveTogether(cfg, books, StalledNow(cfg, books, s), Cause.Stalled, s.stallAt);
      ListedTorrent(ts, books.held, h);
      GoneByHash(StalledNow(cfg, books, s), books.held, h);
    }
  }

  /** And the eviction records exactly those it takes, as stalled. */
  lemma StalledAreRecorded(cfg: Config, b: Books, s: ScanInput)
    requires ListsAll(s.stallOrder) && Keyed(AfterRefresh(cfg, b, s).held)
    ensures RecordedSince(AfterRefresh(cfg, b, s), AfterStalls(cfg, b, s), Cause.Stalled)
  {
    var books := AfterRefresh(cfg, b, s);
    if cfg.stallTimeout > 0 {
      var ts := s.stallOrder(books.held);
      assert Lists(ts, books.held);
      var gone := StalledNow(cfg, books, s);
      FilterDrawn(ts, (t: Torrent) => HasStalled(t, s.catalog, s.stallAt, cfg.stallTimeout, s.views(t.hash)), books.held);
      EachInTime(cfg, gone, Cause.Stalled, s.stallAt);
      LeavesAreRecorded(cfg, books, gone, Cause.Stalled, s.stallAt);
    }
  }
}
