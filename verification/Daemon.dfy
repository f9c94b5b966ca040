/** Whole scans and whole watchdog passes, in any order: every such history is a lawful run over the books. */
module Daemon {
  import opened Words
  import opened Quarantines
  import opened Holdings
  import opened StateFile
  import opened Acting
  import opened Maintenance
  import Displacement
  import Resources
  import Guarantees

  /** The engine's whole state: its books, its detector, the catalog it last fetched. */
  datatype World = World(books: Books, watch: map<Hash, WatchState>, lastCatalog: Option<set<Hash>>)

  type Order = map<Hash, Torrent> -> seq<Torrent>

  ghost predicate ListsAll(order: Order) {
    forall held :: Keyed(held) ==> Lists(order(held), held)
  }

  // ---- the scan ----

  /** What one scan is told: the catalog, the scrapes, the session, the arrivals in the order they come, the clock at each pass. */
  datatype ScanInput = ScanInput(
    catalog: set<Hash>, removeAt: int, confirmAt: int, refreshAt: int, stallAt: int, floor: nat,
    removeOrder: Order, confirmOrder: Order, refreshOrder: Order, stallOrder: Order,
    answers: Hash -> Answer, views: Hash -> View, arrivals: seq<Candidate>, world: Hash -> Env)

  ghost predicate HonestScan(s: ScanInput, m: Measure) {
    && Measured(m, Confirm(s.catalog, s.confirmAt))
    && ListsAll(s.removeOrder) && ListsAll(s.confirmOrder) && ListsAll(s.refreshOrder) && ListsAll(s.stallOrder)
    && Answers(s.world, m)
  }

  ghost function RemovalOps(cfg: Config, b: Books, s: ScanInput): seq<Op> {
    LeaveOps(RemovedByCatalog(cfg, s.removeOrder(b.held), s.catalog, s.removeAt), DeletedFromCatalog, s.removeAt)
  }

  ghost function StallOps(cfg: Config, b: Books, s: ScanInput): seq<Op> {
    if cfg.stallTimeout == 0 then []
    else LeaveOps(StalledNow(cfg, b, s), Cause.Stalled, s.stallAt)
  }

  ghost function StalledNow(cfg: Config, b: Books, s: ScanInput): seq<Torrent> {
    Maintenance.Stalled(s.stallOrder(b.held), s.catalog, s.stallAt, cfg.stallTimeout, s.views)
  }

  ghost function ActingOf(cfg: Config, b: Books, s: ScanInput): Progress {
    ActAll(cfg, b, |b.held|, ActedOn(cfg, s.arrivals), s.floor, s.world)
  }

  ghost function AfterRemoval(cfg: Config, b: Books, s: ScanInput): Books {
    Run(cfg, b, RemovalOps(cfg, b, s))
  }

  ghost function AfterConfirm(cfg: Config, b: Books, s: ScanInput): Books {
    Apply(cfg, AfterRemoval(cfg, b, s), Confirm(s.catalog, s.confirmAt))
  }

  ghost function AfterRefresh(cfg: Config, b: Books, s: ScanInput): Books {
    var held := AfterConfirm(cfg, b, s);
    Run(cfg, held, RefreshOps(s.refreshOrder(held.held), s.answers, s.refreshAt))
  }

  ghost function AfterStalls(cfg: Config, b: Books, s: ScanInput): Books {
    var held := AfterRefresh(cfg, b, s);
    Run(cfg, held, StallOps(cfg, held, s))
  }

  /** Everything a scan does, in order. */
  ghost function ScanOps(cfg: Config, b: Books, s: ScanInput): seq<Op> {
    var confirmed, refreshed := AfterConfirm(cfg, b, s), AfterRefresh(cfg, b, s);
    RemovalOps(cfg, b, s)
    + [Confirm(s.catalog, s.confirmAt)]
    + RefreshOps(s.refreshOrder(confirmed.held), s.answers, s.refreshAt)
    + StallOps(cfg, refreshed, s)
    + ActingOf(cfg, AfterStalls(cfg, b, s), s).ops
  }

  ghost function AfterScan(cfg: Config, b: Books, s: ScanInput): Books {
    ActingOf(cfg, AfterStalls(cfg, b, s), s).books
  }

  // ---- the watchdog pass ----

  datatype PassInput = PassInput(
    session: seq<SessionTorrent>, sweepAt: int, probeAt: int, tripAt: int, loaded: Option<set<Hash>>, floor: nat,
    probes: Hash -> ProbeAnswer, world: Hash -> Env)

  lemma {:induction false} LargestExists(s: set<Hash>) returns (m: Hash)
    requires s != {}
    ensures m in s && forall x :: x in s ==> x <= m
  {
    var h :| h in s;
    if s == {h} {
      m := h;
    } else {
      assert s - {h} != {};
      var n := LargestExists(s - {h});
      m := if n > h then n else h;
      forall x | x in s ensures x <= m {
        assert x == h || x in s - {h};
      }
    }
  }

  lemma HasLargest(s: set<Hash>)
    requires s != {}
    ensures exists m :: m in s && forall x :: x in s ==> x <= m
  {
    var m := LargestExists(s);
  }

  /** The sorted vector of a set. */
  function SortedHashes(s: set<Hash>): (r: seq<Hash>)
    ensures Ascending(r, s)
  {
    if s == {} then []
    else
      HasLargest(s);
      var m :| m in s && forall x :: x in s ==> x <= m;
      var r := SortedHashes(s - {m}) + [m];
      assert r[..|r| - 1] == SortedHashes(s - {m});
      r
  }

  function SweepOf(cfg: Config, w: World, p: PassInput): Swept {
    SweepAll(w.watch, p.session, w.books.quarantined.Keys, cfg.discardBytes, cfg.minWindows)
  }

  function Lifted(cfg: Config, w: World, p: PassInput): seq<Hash> {
    var swept := SweepOf(cfg, w, p);
    swept.lifts + RaceLifts(swept.progress, w.books.quarantined.Keys, w.books.held)
  }

  function AfterProgress(cfg: Config, w: World, p: PassInput): Books {
    Run(cfg, w.books, ProgressOps(SweepOf(cfg, w, p).progress, p.sweepAt))
  }

  function AfterLifts(cfg: Config, w: World, p: PassInput): Books {
    Run(cfg, AfterProgress(cfg, w, p), LiftOps(Lifted(cfg, w, p), p.sweepAt))
  }

  function OrphanList(cfg: Config, w: World, p: PassInput): seq<Hash> {
    SortedHashes(Orphans(AfterLifts(cfg, w, p), SweepOf(cfg, w, p).seen, w.lastCatalog, p.sweepAt))
  }

  function AfterCollection(cfg: Config, w: World, p: PassInput): Books {
    Run(cfg, AfterLifts(cfg, w, p), CollectOps(OrphanList(cfg, w, p), p.sweepAt))
  }

  /** The catalog the probes go by: the last one fetched, or else one loaded now. */
  function ProbeCatalog(w: World, p: PassInput): Option<set<Hash>> {
    if w.lastCatalog.Some? then w.lastCatalog else p.loaded
  }

  ghost function ProbesOf(cfg: Config, b: Books, catalog: Option<set<Hash>>, p: PassInput): Progress {
    if catalog.None? then Progress(b, |b.held|, [])
    else ProbeAll(cfg, b, |b.held|, SortedHashes(ToProbe(b, p.probeAt)), catalog.value, p.probes, p.floor, p.world, p.probeAt)
  }

  ghost function AfterProbes(cfg: Config, w: World, p: PassInput): Books {
    ProbesOf(cfg, AfterCollection(cfg, w, p), ProbeCatalog(w, p), p).books
  }

  function Kept(watch: map<Hash, WatchState>, seen: set<Hash>): map<Hash, WatchState> {
    map h | h in watch && h in seen :: watch[h]
  }

  /** Everything a pass does, in order. */
  ghost function PassOps(cfg: Config, w: World, p: PassInput): seq<Op> {
    if cfg.checkInterval == 0 then []
    else
      ProgressOps(SweepOf(cfg, w, p).progress, p.sweepAt)
      + LiftOps(Lifted(cfg, w, p), p.sweepAt)
      + CollectOps(OrphanList(cfg, w, p), p.sweepAt)
      + ProbesOf(cfg, AfterCollection(cfg, w, p), ProbeCatalog(w, p), p).ops
      + TripOps(SweepOf(cfg, w, p).trips, p.tripAt)
  }

  ghost function AfterPass(cfg: Config, w: World, p: PassInput): World {
    if cfg.checkInterval == 0 then w
    else
      var swept := SweepOf(cfg, w, p);
      World(Run(cfg, AfterProbes(cfg, w, p), TripOps(swept.trips, p.tripAt)),
            Kept(swept.watch, swept.seen) - TrippedHashes(swept.trips),
            if ToProbe(AfterCollection(cfg, w, p), p.probeAt) == {} then w.lastCatalog else ProbeCatalog(w, p))
  }

  // ---- every round is a lawful run ----

  /** `ops` lead from `b` to `to`, lawfully, and `m` is known of them. */
  ghost predicate Leads(cfg: Config, b: Books, ops: seq<Op>, to: Books, m: Measure) {
    to == Run(cfg, b, ops) && LawfulRun(cfg, b, ops) && AllMeasured(m, ops)
  }

  lemma ByUpkeep(cfg: Config, b: Books, ops: seq<Op>, m: Measure)
    requires LawfulRun(cfg, b, ops) && Upkeep(ops)
    ensures Leads(cfg, b, ops, Run(cfg, b, ops), m)
  {
    UpkeepMeasured(m, ops);
  }

  lemma LeadsFurther(cfg: Config, a: Books, xs: seq<Op>, b: Books, ys: seq<Op>, c: Books, m: Measure)
    requires Leads(cfg, a, xs, b, m) && Leads(cfg, b, ys, c, m)
    ensures Leads(cfg, a, xs + ys, c, m)
    ensures Keyed(a.held) ==> Keyed(c.held)
  {
    RunConcat(cfg, a, xs, ys);
    MeasuredConcat(m, xs, ys);
    if Keyed(a.held) {
      RunStaysKeyed(cfg, a, xs + ys);
    }
  }

  lemma RemovalIsLawful(cfg: Config, b: Books, s: ScanInput, m: Measure)
    requires ListsAll(s.removeOrder) && Keyed(b.held)
    ensures Leads(cfg, b, RemovalOps(cfg, b, s), AfterRemoval(cfg, b, s), m)
  {
    var ts := s.removeOrder(b.held);
    assert Lists(ts, b.held);
    RemovedAreDrawn(cfg, ts, s.catalog, s.removeAt, b.held);
    LeaveTogether(cfg, b, RemovedByCatalog(cfg, ts, s.catalog, s.removeAt), DeletedFromCatalog, s.removeAt);
    ByUpkeep(cfg, b, RemovalOps(cfg, b, s), m);
  }

  lemma ConfirmIsLawful(cfg: Config, b: Books, catalog: set<Hash>, now: int, m: Measure)
    requires Measured(m, Confirm(catalog, now))
    ensures Leads(cfg, b, [Confirm(catalog, now)], Apply(cfg, b, Confirm(catalog, now)), m)
  {
    assert [Confirm(catalog, now)] == [] + [Confirm(catalog, now)];
    RunSnoc(cfg, b, [], Confirm(catalog, now));
    MeasuredSnoc(m, [], Confirm(catalog, now));
  }

  lemma RefreshIsLawful(cfg: Config, b: Books, s: ScanInput, m: Measure)
    ensures var ops := RefreshOps(s.refreshOrder(b.held), s.answers, s.refreshAt);
            Leads(cfg, b, ops, Run(cfg, b, ops), m)
  {
    RefreshIsRun(cfg, b, s.refreshOrder(b.held), s.answers, s.refreshAt);
    ByUpkeep(cfg, b, RefreshOps(s.refreshOrder(b.held), s.answers, s.refreshAt), m);
  }

  lemma StallsAreLawful(cfg: Config, b: Books, s: ScanInput, m: Measure)
    requires ListsAll(s.stallOrder) && Keyed(b.held)
    ensures Leads(cfg, b, StallOps(cfg, b, s), Run(cfg, b, StallOps(cfg, b, s)), m)
  {
    var ts := s.stallOrder(b.held);
    assert Lists(ts, b.held);
    if cfg.stallTimeout > 0 {
      Displacement.FilterDrawn(ts, (t: Torrent) => HasStalled(t, s.catalog, s.stallAt, cfg.stallTimeout, s.views(t.hash)), b.held);
      LeaveTogether(cfg, b, StalledNow(cfg, b, s), Cause.Stalled, s.stallAt);
    }
    ByUpkeep(cfg, b, StallOps(cfg, b, s), m);
  }

  lemma ActingIsLawful(cfg: Config, b: Books, s: ScanInput, m: Measure)
    requires ValidConfig(cfg) && Answers(s.world, m) && Keyed(b.held)
    ensures Leads(cfg, b, ActingOf(cfg, b, s).ops, ActingOf(cfg, b, s).books, m)
  {
    ActAllStaysOnCourse(cfg, b, |b.held|, ActedOn(cfg, s.arrivals), s.floor, s.world, m);
  }

  /** From the confirmation of a scan to its end. */
  ghost function SinceConfirm(cfg: Config, b: Books, s: ScanInput): seq<Op> {
    RefreshOps(s.refreshOrder(AfterConfirm(cfg, b, s).held), s.answers, s.refreshAt)
    + StallOps(cfg, AfterRefresh(cfg, b, s), s)
    + ActingOf(cfg, AfterStalls(cfg, b, s), s).ops
  }

  lemma ToConfirm(cfg: Config, b: Books, s: ScanInput, m: Measure)
    requires HonestScan(s, m) && Keyed(b.held)
    ensures Leads(cfg, b, RemovalOps(cfg, b, s) + [Confirm(s.catalog, s.confirmAt)], AfterConfirm(cfg, b, s), m)
    ensures Keyed(AfterRemoval(cfg, b, s).held) && Keyed(AfterConfirm(cfg, b, s).held)
  {
    RemovalIsLawful(cfg, b, s, m);
    RunStaysKeyed(cfg, b, RemovalOps(cfg, b, s));
    ConfirmIsLawful(cfg, AfterRemoval(cfg, b, s), s.catalog, s.confirmAt, m);
    LeadsFurther(cfg, b, RemovalOps(cfg, b, s), AfterRemoval(cfg, b, s), [Confirm(s.catalog, s.confirmAt)], AfterConfirm(cfg, b, s), m);
  }

  lemma FromConfirm(cfg: Config, b: Books, s: ScanInput, m: Measure)
    requires ValidConfig(cfg) && HonestScan(s, m) && Keyed(AfterConfirm(cfg, b, s).held)
    ensures Leads(cfg, AfterConfirm(cfg, b, s), SinceConfirm(cfg, b, s), AfterScan(cfg, b, s), m)
  {
    var b2, b3, b4 := AfterConfirm(cfg, b, s), AfterRefresh(cfg, b, s), AfterStalls(cfg, b, s);
    var refresh, stall := RefreshOps(s.refreshOrder(b2.held), s.answers, s.refreshAt), StallOps(cfg, b3, s);
    RefreshIsLawful(cfg, b2, s, m);
    RunStaysKeyed(cfg, b2, refresh);
    StallsAreLawful(cfg, b3, s, m);
    LeadsFurther(cfg, b2, refresh, b3, stall, b4, m);
    ActingIsLawful(cfg, b4, s, m);
    LeadsFurther(cfg, b2, refresh + stall, b4, ActingOf(cfg, b4, s).ops, AfterScan(cfg, b, s), m);
  }

  /** A whole scan, whatever it is told, is a lawful run. */
  lemma ScanIsLawful(cfg: Config, b: Books, s: ScanInput, m: Measure)
    requires ValidConfig(cfg) && HonestScan(s, m) && Keyed(b.held)
    ensures Leads(cfg, b, ScanOps(cfg, b, s), AfterScan(cfg, b, s), m)
  {
    ToConfirm(cfg, b, s, m);
    FromConfirm(cfg, b, s, m);
    LeadsFurther(cfg, b, RemovalOps(cfg, b, s) + [Confirm(s.catalog, s.confirmAt)], AfterConfirm(cfg, b, s),
                 SinceConfirm(cfg, b, s), AfterScan(cfg, b, s), m);
    FiveInOrder(RemovalOps(cfg, b, s), [Confirm(s.catalog, s.confirmAt)],
                RefreshOps(s.refreshOrder(AfterConfirm(cfg, b, s).held), s.answers, s.refreshAt),
                StallOps(cfg, AfterRefresh(cfg, b, s), s), ActingOf(cfg, AfterStalls(cfg, b, s), s).ops);
  }

  lemma FiveInOrder(a: seq<Op>, b: seq<Op>, c: seq<Op>, d: seq<Op>, e: seq<Op>)
    ensures a + b + (c + d + e) == a + b + c + d + e
  {
  }

  /** Progress, lifts and collection. */
  ghost function UpkeepOps(cfg: Config, w: World, p: PassInput): seq<Op> {
    ProgressOps(SweepOf(cfg, w, p).progress, p.sweepAt)
    + LiftOps(Lifted(cfg, w, p), p.sweepAt)
    + CollectOps(OrphanList(cfg, w, p), p.sweepAt)
  }

  lemma CollectionIsLawful(cfg: Config, w: World, p: PassInput, m: Measure)
    ensures Leads(cfg, w.books, UpkeepOps(cfg, w, p), AfterCollection(cfg, w, p), m)
  {
    var swept := SweepOf(cfg, w, p);
    var progress, lifts := ProgressOps(swept.progress, p.sweepAt), LiftOps(Lifted(cfg, w, p), p.sweepAt);
    var collects := CollectOps(OrphanList(cfg, w, p), p.sweepAt);
    var b, c := AfterProgress(cfg, w, p), AfterLifts(cfg, w, p);
    ProgressIsRefreshes(cfg, w.books, swept.progress, p.sweepAt);
    ByUpkeep(cfg, w.books, progress, m);
    LiftIsRun(cfg, b, Lifted(cfg, w, p), p.sweepAt);
    ByUpkeep(cfg, b, lifts, m);
    LeadsFurther(cfg, w.books, progress, b, lifts, c, m);
    CollectIsRun(cfg, c, OrphanList(cfg, w, p), Orphans(c, swept.seen, w.lastCatalog, p.sweepAt), p.sweepAt);
    ByUpkeep(cfg, c, collects, m);
    LeadsFurther(cfg, w.books, progress + lifts, c, collects, AfterCollection(cfg, w, p), m);
  }

  lemma ProbesAreLawful(cfg: Config, b: Books, catalog: Option<set<Hash>>, p: PassInput, m: Measure)
    requires ValidConfig(cfg) && Answers(p.world, m) && Keyed(b.held)
    ensures Leads(cfg, b, ProbesOf(cfg, b, catalog, p).ops, ProbesOf(cfg, b, catalog, p).books, m)
  {
    if catalog.Some? {
      ProbeAllOnCourse(cfg, b, |b.held|, SortedHashes(ToProbe(b, p.probeAt)), ToProbe(b, p.probeAt), catalog.value,
                       p.probes, p.floor, p.world, p.probeAt, m);
    }
  }

  /** A whole watchdog pass, whatever the session and the world report, is a lawful run. */
  lemma PassIsLawful(cfg: Config, w: World, p: PassInput, m: Measure)
    requires ValidConfig(cfg) && Answers(p.world, m) && Keyed(w.books.held)
    ensures Leads(cfg, w.books, PassOps(cfg, w, p), AfterPass(cfg, w, p).books, m)
  {
    if cfg.checkInterval > 0 {
      var b, c := AfterCollection(cfg, w, p), AfterProbes(cfg, w, p);
      var probes := ProbesOf(cfg, b, ProbeCatalog(w, p), p).ops;
      var trips := TripOps(SweepOf(cfg, w, p).trips, p.tripAt);
      CollectionIsLawful(cfg, w, p, m);
      RunStaysKeyed(cfg, w.books, UpkeepOps(cfg, w, p));
      ProbesAreLawful(cfg, b, ProbeCatalog(w, p), p, m);
      LeadsFurther(cfg, w.books, UpkeepOps(cfg, w, p), b, probes, c, m);
      TripOpsAreLawful(cfg, c, SweepOf(cfg, w, p).trips, p.tripAt);
      ByUpkeep(cfg, c, trips, m);
      LeadsFurther(cfg, w.books, UpkeepOps(cfg, w, p) + probes, c, trips, AfterPass(cfg, w, p).books, m);
    }
  }

  lemma {:induction false} AscendingHas(r: seq<Hash>, s: set<Hash>, h: Hash)
    requires Ascending(r, s)
    ensures h in r <==> h in s
  {
    if r != [] {
      AscendingHas(r[..|r| - 1], s - {r[|r| - 1]}, h);
      assert r == r[..|r| - 1] + [r[|r| - 1]];
    }
  }

  /**
   * After the lifts, a pass drops exactly the entries that are past their cooldown, not held, not in the
   * session and not in a fetched catalog; every other entry, its attempts included, is untouched.
   */
  lemma CollectionDropsExactlyOrphans(cfg: Config, w: World, p: PassInput, h: Hash)
    requires h in AfterLifts(cfg, w, p).quarantined
    ensures h in AfterCollection(cfg, w, p).quarantined <==>
              !(&& AfterLifts(cfg, w, p).quarantined[h].cooldownUntil <= p.sweepAt && h !in AfterLifts(cfg, w, p).held
                && h !in SweepOf(cfg, w, p).seen && w.lastCatalog.Some? && h !in w.lastCatalog.value)
    ensures h in AfterCollection(cfg, w, p).quarantined ==>
              AfterCollection(cfg, w, p).quarantined[h] == AfterLifts(cfg, w, p).quarantined[h]
  {
    var b := AfterLifts(cfg, w, p);
    var orphans := Orphans(b, SweepOf(cfg, w, p).seen, w.lastCatalog, p.sweepAt);
    CollectIsRun(cfg, b, OrphanList(cfg, w, p), orphans, p.sweepAt);
    AscendingHas(OrphanList(cfg, w, p), orphans, h);
    WithoutHashesKeeps(b.quarantined, OrphanList(cfg, w, p), h);
  }

  // ---- the detector over a boot's passes ----

  function ForgetFeeds(trips: seq<Tripped>): seq<Feed> {
    if trips == [] then [] else ForgetFeeds(trips[..|trips| - 1]) + [Forgotten(trips[|trips| - 1].hash)]
  }

  lemma {:induction false} ForgettingIsHistory(feeds: seq<Feed>, trips: seq<Tripped>)
    ensures After(feeds + ForgetFeeds(trips)) == After(feeds) - TrippedHashes(trips)
  {
    if trips == [] {
      assert feeds + [] == feeds;
      assert After(feeds) - {} == After(feeds);
    } else {
      var front, h := trips[..|trips| - 1], trips[|trips| - 1].hash;
      ForgettingIsHistory(feeds, front);
      FeedSnoc(feeds + ForgetFeeds(front), Forgotten(h));
      assert feeds + (ForgetFeeds(front) + [Forgotten(h)]) == feeds + ForgetFeeds(front) + [Forgotten(h)];
      MinusMore(After(feeds), TrippedHashes(front), h);
    }
  }

  lemma FeedSnoc(feeds: seq<Feed>, f: Feed)
    ensures f.Forgotten? ==> After(feeds + [f]) == After(feeds) - {f.hash}
    ensures f.Retained? ==> After(feeds + [f]) == Kept(After(feeds), f.keep)
  {
    assert (feeds + [f])[..|feeds|] == feeds;
  }

  /** What one pass tells the detector: the sweep, the pruning, and a forget for every trip. */
  function PassFeeds(cfg: Config, w: World, p: PassInput): seq<Feed> {
    var swept := SweepOf(cfg, w, p);
    SweepFeeds(p.session) + [Retained(swept.seen)] + ForgetFeeds(swept.trips)
  }

  lemma InOrder(a: seq<Feed>, b: seq<Feed>, c: seq<Feed>, d: seq<Feed>)
    ensures a + (b + c + d) == a + b + c + d
  {
  }

  /** A pass leaves the detector as its whole history of calls, this pass's included, would have it. */
  lemma PassExtendsHistory(cfg: Config, w: World, p: PassInput, feeds: seq<Feed>)
    requires cfg.checkInterval > 0 && w.watch == After(feeds)
    ensures AfterPass(cfg, w, p).watch == After(feeds + PassFeeds(cfg, w, p))
  {
    var swept := SweepOf(cfg, w, p);
    var sweeping := feeds + SweepFeeds(p.session);
    SweepExtendsHistory(feeds, p.session, w.books.quarantined.Keys, cfg.discardBytes, cfg.minWindows);
    FeedSnoc(sweeping, Retained(swept.seen));
    ForgettingIsHistory(sweeping + [Retained(swept.seen)], swept.trips);
    InOrder(feeds, SweepFeeds(p.session), [Retained(swept.seen)], ForgetFeeds(swept.trips));
  }

  /**
   * So the `k`-th torrent of a session trips in a pass exactly when its reading ends a stretch, of at
   * least max(1, min windows) readings in the whole history of calls, without a verified byte and with
   * at least the threshold fetched.
   */
  lemma SessionTorrentTripsExactly(cfg: Config, w: World, p: PassInput, feeds: seq<Feed>, k: nat)
    requires w.watch == After(feeds) && k < |p.session| && cfg.minWindows <= U32_MAX
    requires !p.session[k].finished && p.session[k].fetched.Some?
    requires InRange(MarksBefore(feeds, p, k))
    ensures var registered := w.books.quarantined.Keys;
            var marks := MarksBefore(feeds, p, k);
            var n := |marks| - 1;
            |SweepAll(w.watch, p.session[..k + 1], registered, cfg.discardBytes, cfg.minWindows).trips|
              > |SweepAll(w.watch, p.session[..k], registered, cfg.discardBytes, cfg.minWindows).trips|
            <==> exists r: nat :: QuietStretch(marks, r, n)
                   && marks[n].fetched - marks[r].fetched >= cfg.discardBytes
                   && n - r >= Max(cfg.minWindows, 1)
  {
    var t := p.session[k];
    var registered := w.books.quarantined.Keys;
    SweepNext(w.watch, p.session, k, registered, cfg.discardBytes, cfg.minWindows);
    SweepExtendsHistory(feeds, p.session[..k], registered, cfg.discardBytes, cfg.minWindows);
    OneMoreTrip(SweepAll(w.watch, p.session[..k], registered, cfg.discardBytes, cfg.minWindows), t, registered, cfg.discardBytes, cfg.minWindows);
    TripsExactlyOnQuietStretch(feeds + SweepFeeds(p.session[..k]), t.hash, t.checked, t.fetched.value, cfg.discardBytes, cfg.minWindows);
  }

  lemma SweepNext(watch: map<Hash, WatchState>, session: seq<SessionTorrent>, k: nat, registered: set<Hash>, threshold: nat, minWindows: nat)
    requires k < |session|
    ensures SweepAll(watch, session[..k + 1], registered, threshold, minWindows)
         == SweepOne(SweepAll(watch, session[..k], registered, threshold, minWindows), session[k], registered, threshold, minWindows)
  {
    assert session[..k + 1][..k] == session[..k];
  }

  lemma OneMoreTrip(s: Swept, t: SessionTorrent, registered: set<Hash>, threshold: nat, minWindows: nat)
    requires !t.finished && t.fetched.Some?
    ensures |SweepOne(s, t, registered, threshold, minWindows).trips| > |s.trips|
            <==> Verdict(Watched(s.watch, t.hash), t.checked, t.fetched.value, threshold, minWindows).Some?
  {
  }

  /** The marks of the `k`-th torrent of the session, its reading in this sweep the last. */
  function MarksBefore(feeds: seq<Feed>, p: PassInput, k: nat): seq<Mark>
    requires k < |p.session| && p.session[k].fetched.Some?
  {
    Project(feeds + SweepFeeds(p.session[..k]), p.session[k].hash) + [Reading(p.session[k].checked, p.session[k].fetched.value)]
  }

  // ---- any history of scans and passes ----

  datatype Round = Scan(scan: ScanInput) | Pass(pass: PassInput)

  ghost function AfterRound(cfg: Config, w: World, r: Round): World {
    match r
    case Scan(s) => World(AfterScan(cfg, w.books, s), w.watch, Some(s.catalog))
    case Pass(p) => AfterPass(cfg, w, p)
  }

  ghost function RoundOps(cfg: Config, w: World, r: Round): seq<Op> {
    match r
    case Scan(s) => ScanOps(cfg, w.books, s)
    case Pass(p) => PassOps(cfg, w, p)
  }

  ghost function AfterRounds(cfg: Config, w: World, rounds: seq<Round>): World {
    if rounds == [] then w
    else AfterRound(cfg, AfterRounds(cfg, w, rounds[..|rounds| - 1]), rounds[|rounds| - 1])
  }

  /** Everything a history of rounds does, in order. */
  ghost function HistoryOps(cfg: Config, w: World, rounds: seq<Round>): seq<Op> {
    if rounds == [] then []
    else
      var before := rounds[..|rounds| - 1];
      HistoryOps(cfg, w, before) + RoundOps(cfg, AfterRounds(cfg, w, before), rounds[|rounds| - 1])
  }

  ghost predicate HonestRound(r: Round, m: Measure) {
    match r
    case Scan(s) => HonestScan(s, m)
    case Pass(p) => Answers(p.world, m)
  }

  ghost predicate HonestRounds(rounds: seq<Round>, m: Measure) {
    rounds == [] || (HonestRounds(rounds[..|rounds| - 1], m) && HonestRound(rounds[|rounds| - 1], m))
  }

  lemma RoundIsLawful(cfg: Config, w: World, r: Round, m: Measure)
    requires ValidConfig(cfg) && Keyed(w.books.held) && HonestRound(r, m)
    ensures Leads(cfg, w.books, RoundOps(cfg, w, r), AfterRound(cfg, w, r).books, m)
  {
    match r
    case Scan(s) => ScanIsLawful(cfg, w.books, s, m);
    case Pass(p) => PassIsLawful(cfg, w, p, m);
  }

  /** Whatever the order of scans and passes and whatever the world answers them, the books only ever move by lawful operations. */
  lemma {:induction false} HistoryIsLawful(cfg: Config, w: World, rounds: seq<Round>, m: Measure)
    requires ValidConfig(cfg) && Keyed(w.books.held) && HonestRounds(rounds, m)
    ensures Leads(cfg, w.books, HistoryOps(cfg, w, rounds), AfterRounds(cfg, w, rounds).books, m)
    ensures Keyed(AfterRounds(cfg, w, rounds).books.held)
  {
    if rounds != [] {
      var front, r := rounds[..|rounds| - 1], rounds[|rounds| - 1];
      var before := AfterRounds(cfg, w, front);
      HistoryIsLawful(cfg, w, front, m);
      RoundIsLawful(cfg, before, r, m);
      LeadsFurther(cfg, w.books, HistoryOps(cfg, w, front), before.books, RoundOps(cfg, before, r), AfterRound(cfg, before, r).books, m);
    }
  }

  /** No history of scans and passes holds more torrents than the cap, unless it began with more. */
  lemma HistoryKeepsCount(cfg: Config, w: World, rounds: seq<Round>)
    requires ValidConfig(cfg) && Keyed(w.books.held) && HonestRounds(rounds, Anything)
    ensures |AfterRounds(cfg, w, rounds).books.held| <= Max(|w.books.held|, cfg.maxTorrents)
  {
    HistoryIsLawful(cfg, w, rounds, Anything);
    Resources.CountStaysWithinCap(cfg, w.books, HistoryOps(cfg, w, rounds));
  }

  /**
   * Nor, on any location, more bytes and buffers than its limit. Nothing need be known of the metadata unless the
   * limit is the whole word; then every footprint has to fit it.
   */
  lemma HistoryKeepsDisk(cfg: Config, w: World, rounds: seq<Round>, path: Path, m: Measure)
    requires ValidConfig(cfg) && Keyed(w.books.held) && HonestRounds(rounds, m)
    requires LimitOf(cfg, path) < U64_MAX || m == Sized
    ensures DiskUsed(AfterRounds(cfg, w, rounds).books.held, path) <= Max(DiskUsed(w.books.held, path), LimitOf(cfg, path))
  {
    HistoryIsLawful(cfg, w, rounds, m);
    Resources.DiskStaysWithinLimit(cfg, w.books, HistoryOps(cfg, w, rounds), path);
  }

  /** Nor more priced RAM than the budget. */
  lemma HistoryKeepsRam(cfg: Config, w: World, rounds: seq<Round>)
    requires ValidConfig(cfg) && Keyed(w.books.held) && HonestRounds(rounds, Anything)
    ensures RamUsed(AfterRounds(cfg, w, rounds).books.held, cfg) <= Max(RamUsed(w.books.held, cfg), cfg.ramBudget)
  {
    HistoryIsLawful(cfg, w, rounds, Anything);
    Resources.RamStaysWithinBudget(cfg, w.books, HistoryOps(cfg, w, rounds));
  }

  /** And the ledger it wrote replays from the hashes held at the start to those held at the end. */
  lemma HistoryReplays(cfg: Config, w: World, rounds: seq<Round>)
    requires ValidConfig(cfg) && Keyed(w.books.held) && HonestRounds(rounds, Anything)
    ensures var after := AfterRounds(cfg, w, rounds).books;
            && Guarantees.Extends(after.ledger, w.books.ledger)
            && Guarantees.Replay(w.books.held.Keys, after.ledger[|w.books.ledger|..]) == after.held.Keys
  {
    HistoryIsLawful(cfg, w, rounds, Anything);
    Guarantees.LedgerReplaysToHeld(cfg, w.books, HistoryOps(cfg, w, rounds));
  }

  /** The attempts of a hash after any history are its trips since the last lift or collection in it. */
  lemma HistoryCountsAttempts(cfg: Config, w: World, rounds: seq<Round>, h: Hash)
    requires ValidConfig(cfg) && Keyed(w.books.held) && HonestRounds(rounds, Anything)
    ensures var ops := HistoryOps(cfg, w, rounds);
            var k := Guarantees.SinceReset(ops, h);
            Guarantees.Attempts(AfterRounds(cfg, w, rounds).books, h)
            == Guarantees.TripCount(ops[k..], h) + (if k == 0 then Guarantees.Attempts(w.books, h) else 0)
  {
    HistoryIsLawful(cfg, w, rounds, Anything);
    Guarantees.AttemptsCountTrips(cfg, w.books, HistoryOps(cfg, w, rounds), h);
  }

  /**
   * Across any scans and passes, and until the next trip, lift or collection of it, a tripped hash comes back only
   * once its cooldown, or the far-future term, has passed.
   */
  lemma HistoryKeepsTrippedOut(cfg: Config, w: World, rounds: seq<Round>, ops: seq<Op>, i: nat, j: nat)
    requires ValidConfig(cfg) && Keyed(w.books.held) && HonestRounds(rounds, Anything)
    requires ops == HistoryOps(cfg, w, rounds) && Guarantees.Calendar(ops) && i < j < |ops|
    requires ops[i].TripOp? && ops[j].Enter? && ops[j].t.hash == ops[i].hash && Guarantees.NoneTouches(ops[i + 1..j], ops[i].hash)
    ensures ops[j].at >= Min(ops[i].at + cfg.cooldown, FarFuture(ops[i].at))
    ensures cfg.maxRetries > 0 && Guarantees.Attempts(Run(cfg, w.books, ops[..i]), ops[i].hash) >= cfg.maxRetries ==>
              ops[j].at >= FarFuture(ops[i].at)
  {
    HistoryIsLawful(cfg, w, rounds, Anything);
    Guarantees.TripKeepsOut(cfg, w.books, ops, i, j);
  }

  /**
   * Across any passes, two probes of one hash with no trip, lift or collection of it between are the cooldown and
   * the watchdog's interval apart.
   */
  lemma HistorySpacesProbes(cfg: Config, w: World, rounds: seq<Round>, ops: seq<Op>, i: nat, j: nat)
    requires ValidConfig(cfg) && Keyed(w.books.held) && HonestRounds(rounds, Anything)
    requires ops == HistoryOps(cfg, w, rounds) && Guarantees.Calendar(ops) && i < j < |ops|
    requires ops[i].Rearm? && ops[j].Rearm? && ops[j].hash == ops[i].hash && Guarantees.NoneTouches(ops[i + 1..j], ops[i].hash)
    ensures ops[j].at >= Min(ops[i].at + Max(cfg.cooldown, cfg.checkInterval), MAX_UTC)
  {
    HistoryIsLawful(cfg, w, rounds, Anything);
    Guarantees.ProbesKeepApart(cfg, w.books, ops, i, j);
  }

  /** What a scan's catalog lists is anchored at that scan's confirmation when the scan ends, even if it entered only then. */
  lemma ScanAnchors(cfg: Config, b: Books, s: ScanInput, h: Hash)
    requires ValidConfig(cfg) && HonestScan(s, Since(s.confirmAt)) && Keyed(b.held) && h in s.catalog
    ensures Guarantees.AnchoredSince(AfterScan(cfg, b, s), h, s.confirmAt) && Keyed(AfterScan(cfg, b, s).held)
  {
    var m := Since(s.confirmAt);
    ToConfirm(cfg, b, s, m);
    FromConfirm(cfg, b, s, m);
    Guarantees.ConfirmAnchors(cfg, AfterRemoval(cfg, b, s), s.catalog, s.confirmAt, h);
    LedKeepsAnchor(cfg, AfterConfirm(cfg, b, s), SinceConfirm(cfg, b, s), AfterScan(cfg, b, s), h, s.confirmAt);
  }

  lemma LedKeepsAnchor(cfg: Config, b: Books, ops: seq<Op>, to: Books, h: Hash, t: int)
    requires Keyed(b.held) && Guarantees.AnchoredSince(b, h, t) && Leads(cfg, b, ops, to, Since(t))
    ensures Guarantees.AnchoredSince(to, h, t) && Keyed(to.held)
  {
    Guarantees.AnchorOnlyAdvances(cfg, b, ops, h, t);
    RunStaysKeyed(cfg, b, ops);
  }

  /**
   * The grace window, scan to scan: what a scan removes as delisted was in the catalog of no scan whose
   * confirmation came within the window before, whatever scans and passes lie between, provided no clock
   * read since that confirmation ran behind it.
   */
  lemma HistoryKeepsGrace(cfg: Config, w: World, listing: ScanInput, rounds: seq<Round>, removing: ScanInput, gone: Torrent)
    requires ValidConfig(cfg) && Keyed(w.books.held)
    requires HonestScan(listing, Since(listing.confirmAt)) && HonestRounds(rounds, Since(listing.confirmAt))
    requires ListsAll(removing.removeOrder) && gone.hash in listing.catalog
    requires var reached := AfterRounds(cfg, AfterRound(cfg, w, Scan(listing)), rounds).books;
             gone in RemovedByCatalog(cfg, removing.removeOrder(reached.held), removing.catalog, removing.removeAt)
    ensures removing.removeAt - listing.confirmAt >= cfg.vanishedTimeout
  {
    var m := Since(listing.confirmAt);
    var confirmed := AfterRound(cfg, w, Scan(listing));
    var reached := AfterRounds(cfg, confirmed, rounds).books;
    ScanAnchors(cfg, w.books, listing, gone.hash);
    HistoryIsLawful(cfg, confirmed, rounds, m);
    LedKeepsAnchor(cfg, confirmed.books, HistoryOps(cfg, confirmed, rounds), reached, gone.hash, listing.confirmAt);
    var ts := removing.removeOrder(reached.held);
    assert Lists(ts, reached.held);
    RemovedAreHeld(cfg, ts, removing.catalog, removing.removeAt, reached.held, gone);
  }

  lemma RemovedAreHeld(cfg: Config, ts: seq<Torrent>, catalog: set<Hash>, now: int, held: map<Hash, Torrent>, gone: Torrent)
    requires Drawn(ts, held) && gone in RemovedByCatalog(cfg, ts, catalog, now)
    ensures Displacement.IsHeld(gone, held) && now - Anchor(gone) >= cfg.vanishedTimeout
  {
    Displacement.DrawnIsDistinct(ts, held);
    assert gone in ts;
  }
}
