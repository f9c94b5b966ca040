/**
 * The passes over what is already held: the removed-from-catalog pass behind its collapse guard, the
 * confirmation stamps, the seeder refresh, the stall eviction, and the quarantine watchdog.
 */
module Maintenance {
  import opened Words
  import opened Sorting
  import opened Quarantines
  import opened Holdings
  import opened StateFile
  import opened Acting
  import Displacement
  import Selector

  // ---- the catalog collapse guard ----

  predicate CollapseGuard(held: nat, listed: nat, percent: nat) {
    held > 0 && percent > 0 && listed < Max(held * percent / 100, 1)
  }

  /** The guard as documented: it trips when fewer than `percent` percent of the held set is listed. */
  predicate DocumentedGuard(held: nat, listed: nat, percent: nat) {
    held > 0 && percent > 0 && listed * 100 < held * percent
  }

  /**
   * The guard trips on less than documented: it stays open exactly when the listed share is the
   * threshold rounded down to a whole torrent, at least one.
   */
  lemma GuardVersusDocumentation(held: nat, listed: nat, percent: nat)
    ensures CollapseGuard(held, listed, percent) ==> DocumentedGuard(held, listed, percent)
    ensures DocumentedGuard(held, listed, percent) && !CollapseGuard(held, listed, percent)
            <==> held > 0 && percent > 0 && listed >= 1 && listed == held * percent / 100 && held * percent % 100 != 0
  {
    var n := held * percent;
    assert n == n / 100 * 100 + n % 100;
    if held > 0 && percent > 0 {
      assert n > 0;
    }
  }

  /** Raising the percent never opens the guard; lowering it, down to 0, does. */
  lemma RaisingPercentNeverOpensGuard(held: nat, listed: nat, percent: nat, raised: nat)
    requires percent <= raised
    ensures CollapseGuard(held, listed, percent) ==> CollapseGuard(held, listed, raised)
    ensures !CollapseGuard(held, listed, 0)
  {
    assert held * percent <= held * raised;
  }

  // ---- removals ----

  function LeaveOps(ts: seq<Torrent>, cause: Cause, now: int): seq<Op> {
    if ts == [] then [] else LeaveOps(ts[..|ts| - 1], cause, now) + [Leave(ts[|ts| - 1].hash, cause, now)]
  }

  lemma LeaveOpsSnoc(ts: seq<Torrent>, t: Torrent, cause: Cause, now: int)
    ensures LeaveOps(ts + [t], cause, now) == LeaveOps(ts, cause, now) + [Leave(t.hash, cause, now)]
  {
    assert (ts + [t])[..|ts|] == ts;
  }

  lemma LeaveNext(cfg: Config, b: Books, now1: Books, gone: set<Hash>, t: Torrent, cause: Cause, now: int)
    requires now1.held == b.held - gone && t.hash in b.held - gone && (b.held - gone)[t.hash] == t
    requires b.held - gone - {t.hash} == b.held - (gone + {t.hash})
    requires cause == DeletedFromCatalog ==> now - Anchor(t) >= cfg.vanishedTimeout
    ensures var op := Leave(t.hash, cause, now);
            && Lawful(cfg, now1, op)
            && Apply(cfg, now1, op).held == b.held - (gone + {t.hash})
            && Apply(cfg, now1, op).quarantined == now1.quarantined
  {
  }

  predicate InTime(cfg: Config, ts: seq<Torrent>, cause: Cause, now: int) {
    ts == [] || (InTime(cfg, ts[..|ts| - 1], cause, now)
                 && (cause == DeletedFromCatalog ==> now - Anchor(ts[|ts| - 1]) >= cfg.vanishedTimeout))
  }

  lemma {:induction false} EachInTime(cfg: Config, ts: seq<Torrent>, cause: Cause, now: int)
    requires cause == DeletedFromCatalog ==> forall t :: t in ts ==> now - Anchor(t) >= cfg.vanishedTimeout
    ensures InTime(cfg, ts, cause, now)
  {
    if ts != [] {
      assert ts[|ts| - 1] in ts && forall x :: x in ts[..|ts| - 1] ==> x in ts;
      EachInTime(cfg, ts[..|ts| - 1], cause, now);
    }
  }

  /** Leaving one after another is leaving together, each with its own event. */
  lemma LeaveTogether(cfg: Config, b: Books, ts: seq<Torrent>, cause: Cause, now: int)
    requires Drawn(ts, b.held)
    requires cause == DeletedFromCatalog ==> forall t :: t in ts ==> now - Anchor(t) >= cfg.vanishedTimeout
    ensures var after := Run(cfg, b, LeaveOps(ts, cause, now));
            after.held == b.held - HashSet(ts) && after.quarantined == b.quarantined
    ensures LawfulRun(cfg, b, LeaveOps(ts, cause, now)) && Upkeep(LeaveOps(ts, cause, now))
  {
    EachInTime(cfg, ts, cause, now);
    LeaveInTurn(cfg, b, ts, cause, now);
  }

  lemma {:induction false} LeaveInTurn(cfg: Config, b: Books, ts: seq<Torrent>, cause: Cause, now: int)
    requires Drawn(ts, b.held) && InTime(cfg, ts, cause, now)
    ensures var after := Run(cfg, b, LeaveOps(ts, cause, now));
            after.held == b.held - HashSet(ts) && after.quarantined == b.quarantined
    ensures LawfulRun(cfg, b, LeaveOps(ts, cause, now)) && Upkeep(LeaveOps(ts, cause, now))
  {
    if ts == [] {
      NothingTaken(b.held);
    } else {
      var rest, t := ts[..|ts| - 1], ts[|ts| - 1];
      LeaveInTurn(cfg, b, rest, cause, now);
      TakeOut(b.held, HashSet(rest), t.hash);
      LeaveNext(cfg, b, Run(cfg, b, LeaveOps(rest, cause, now)), HashSet(rest), t, cause, now);
      RunSnoc(cfg, b, LeaveOps(rest, cause, now), Leave(t.hash, cause, now));
    }
  }

  predicate PastGrace(t: Torrent, catalog: set<Hash>, now: int, timeout: nat) {
    t.hash !in catalog && now - Anchor(t) >= timeout
  }

  function Delisted(ts: seq<Torrent>, catalog: set<Hash>, now: int, timeout: nat): seq<Torrent> {
    Filter(ts, (t: Torrent) => PastGrace(t, catalog, now, timeout))
  }

  /** What the session, or failing that the disk, says of a held torrent. */
  datatype View = View(checking: bool, finished: bool, progress: nat)

  predicate HasStalled(t: Torrent, catalog: set<Hash>, now: int, timeout: nat, view: View) {
    && t.hash in catalog
    && t.progressAt.Some? && now - t.progressAt.value >= timeout
    && !view.checking && !view.finished && view.progress < t.size
  }

  function Stalled(ts: seq<Torrent>, catalog: set<Hash>, now: int, timeout: nat, view: Hash -> View): seq<Torrent> {
    Filter(ts, (t: Torrent) => HasStalled(t, catalog, now, timeout, view(t.hash)))
  }

  /** What the removed-from-catalog pass takes away, guard and setting included. */
  function RemovedByCatalog(cfg: Config, ts: seq<Torrent>, catalog: set<Hash>, now: int): seq<Torrent> {
    if CollapseGuard(|ts|, |catalog * HashSet(ts)|, cfg.collapsePercent) || cfg.preserveDeleted then []
    else Delisted(ts, catalog, now, cfg.vanishedTimeout)
  }

  lemma {:induction false} HashSetOfPart(part: seq<Torrent>, held: map<Hash, Torrent>, keep: set<Hash>)
    requires forall t :: t in part ==> t.hash !in keep
    ensures HashSet(part) !! keep
  {
    if part != [] {
      var rest, t := part[..|part| - 1], part[|part| - 1];
      assert t in part && forall x :: x in rest ==> x in part;
      HashSetOfPart(rest, held, keep);
    }
  }

  lemma SubsetCount(a: set<Hash>, b: set<Hash>)
    requires a <= b
    ensures |a| <= |b|
  {
    if a != b {
      assert b == a + (b - a);
    }
  }

  /** Either the pass removes nothing, or what survives is at least the guarded share of what was held, and one. */
  lemma SurvivorsMeetGuard(cfg: Config, b: Books, ts: seq<Torrent>, catalog: set<Hash>, now: int)
    requires Lists(ts, b.held) && cfg.collapsePercent > 0 && b.held != map[]
    ensures var gone := RemovedByCatalog(cfg, ts, catalog, now);
            gone == [] || |b.held - HashSet(gone)| >= Max(1, |b.held| * cfg.collapsePercent / 100)
  {
    var gone := RemovedByCatalog(cfg, ts, catalog, now);
    CountDrawn(ts, b.held);
    NothingLeft(b.held);
    if gone != [] {
      var listed := catalog * HashSet(ts);
      HashSetOfPart(gone, b.held, listed);
      assert listed <= (b.held - HashSet(gone)).Keys;
      SubsetCount(listed, (b.held - HashSet(gone)).Keys);
    }
  }

  lemma NothingLeft(held: map<Hash, Torrent>)
    ensures held - held.Keys == map[]
    ensures held != map[] ==> |held| > 0
  {
    if held != map[] {
      var h :| h in held;
      assert h in held.Keys;
    }
  }

  lemma RemovedAreDrawn(cfg: Config, ts: seq<Torrent>, catalog: set<Hash>, now: int, held: map<Hash, Torrent>)
    requires Drawn(ts, held)
    ensures Drawn(RemovedByCatalog(cfg, ts, catalog, now), held)
    ensures forall t :: t in RemovedByCatalog(cfg, ts, catalog, now) ==> now - Anchor(t) >= cfg.vanishedTimeout
  {
    Displacement.FilterDrawn(ts, (t: Torrent) => PastGrace(t, catalog, now, cfg.vanishedTimeout), held);
  }

  // ---- stamps and refreshes ----

  predicate NeedsStamp(t: Torrent, catalog: set<Hash>, now: int) {
    t.hash in catalog && (t.confirmedAt.None? || t.confirmedAt.value < now)
  }

  function StampWith(now: int): Torrent -> Torrent {
    (t: Torrent) => t.(confirmedAt := Some(now))
  }

  function ConfirmUpdates(ts: seq<Torrent>, catalog: set<Hash>, now: int): seq<Update> {
    if ts == [] then []
    else
      var t := ts[|ts| - 1];
      ConfirmUpdates(ts[..|ts| - 1], catalog, now)
      + if NeedsStamp(t, catalog, now) then [Update(t.hash, StampWith(now))] else []
  }

  /** What of `held` is stamped once `ts` was walked. */
  function StampedOnly(held: map<Hash, Torrent>, walked: set<Hash>, catalog: set<Hash>, now: int): map<Hash, Torrent> {
    map h | h in held :: if h in walked then Confirmed(held[h], catalog, now) else held[h]
  }

  /** The batched stamps are the confirmation of every listed torrent. */
  lemma {:induction false} ConfirmWalk(held: map<Hash, Torrent>, ts: seq<Torrent>, catalog: set<Hash>, now: int)
    requires Keyed(held) && Drawn(ts, held)
    ensures Updated(held, ConfirmUpdates(ts, catalog, now)) == StampedOnly(held, HashSet(ts), catalog, now)
  {
    if ts != [] {
      var rest, t := ts[..|ts| - 1], ts[|ts| - 1];
      ConfirmWalk(held, rest, catalog, now);
      UpdatedSnoc(held, ConfirmUpdates(rest, catalog, now), Update(t.hash, StampWith(now)));
      StampOne(held, HashSet(rest), t, catalog, now);
      assert ConfirmUpdates(rest, catalog, now) + [] == ConfirmUpdates(rest, catalog, now);
    } else {
      assert StampedOnly(held, {}, catalog, now) == held;
    }
  }

  lemma UpdatedSnoc(held: map<Hash, Torrent>, updates: seq<Update>, u: Update)
    ensures var before := Updated(held, updates);
            Updated(held, updates + [u]) == if u.hash in before then before[u.hash := u.change(before[u.hash])] else before
  {
    assert (updates + [u])[..|updates|] == updates;
  }

  lemma StampOne(held: map<Hash, Torrent>, walked: set<Hash>, t: Torrent, catalog: set<Hash>, now: int)
    requires t.hash in held && held[t.hash] == t && t.hash !in walked
    ensures var before := StampedOnly(held, walked, catalog, now);
            StampedOnly(held, walked + {t.hash}, catalog, now)
            == if NeedsStamp(t, catalog, now) then before[t.hash := t.(confirmedAt := Some(now))] else before
    ensures t.hash in StampedOnly(held, walked, catalog, now) && StampedOnly(held, walked, catalog, now)[t.hash] == t
  {
  }

  lemma ConfirmIsOneStep(cfg: Config, b: Books, ts: seq<Torrent>, catalog: set<Hash>, now: int)
    requires Keyed(b.held) && Lists(ts, b.held)
    ensures Updated(b.held, ConfirmUpdates(ts, catalog, now)) == Apply(cfg, b, Confirm(catalog, now)).held
  {
    ConfirmWalk(b.held, ts, catalog, now);
    assert StampedOnly(b.held, b.held.Keys, catalog, now) == Apply(cfg, b, Confirm(catalog, now)).held;
  }

  /** A seeder count where metadata and scrape succeeded, and the verified bytes. */
  datatype Answer = Answer(seeders: Option<nat>, progress: nat)

  function RefreshWith(a: Answer, now: int): Torrent -> Torrent {
    (t: Torrent) => Refreshed(t, a.seeders, a.progress, now)
  }

  function RefreshUpdates(ts: seq<Torrent>, answer: Hash -> Answer, now: int): seq<Update> {
    if ts == [] then []
    else
      var h := ts[|ts| - 1].hash;
      var a := answer(h);
      RefreshUpdates(ts[..|ts| - 1], answer, now)
      + if a.seeders.Some? then [Update(h, RefreshWith(a, now))] else []
  }

  function RefreshOps(ts: seq<Torrent>, answer: Hash -> Answer, now: int): seq<Op> {
    if ts == [] then []
    else
      var h := ts[|ts| - 1].hash;
      var a := answer(h);
      RefreshOps(ts[..|ts| - 1], answer, now) + if a.seeders.Some? then [Refresh(h, a.seeders, a.progress, now)] else []
  }

  lemma RefreshOne(cfg: Config, b: Books, ops: seq<Op>, updates: seq<Update>, h: Hash, a: Answer, now: int)
    requires Run(cfg, b, ops) == b.(held := Updated(b.held, updates)) && LawfulRun(cfg, b, ops)
    ensures Run(cfg, b, ops + [Refresh(h, a.seeders, a.progress, now)])
         == b.(held := Updated(b.held, updates + [Update(h, RefreshWith(a, now))]))
    ensures LawfulRun(cfg, b, ops + [Refresh(h, a.seeders, a.progress, now)])
    ensures Upkeep(ops) ==> Upkeep(ops + [Refresh(h, a.seeders, a.progress, now)])
  {
    RunSnoc(cfg, b, ops, Refresh(h, a.seeders, a.progress, now));
    UpdatedSnoc(b.held, updates, Update(h, RefreshWith(a, now)));
  }

  lemma {:induction false} RefreshIsRun(cfg: Config, b: Books, ts: seq<Torrent>, answer: Hash -> Answer, now: int)
    ensures Run(cfg, b, RefreshOps(ts, answer, now)) == b.(held := Updated(b.held, RefreshUpdates(ts, answer, now)))
    ensures LawfulRun(cfg, b, RefreshOps(ts, answer, now)) && Upkeep(RefreshOps(ts, answer, now))
  {
    if ts != [] {
      var rest, h := ts[..|ts| - 1], ts[|ts| - 1].hash;
      var a := answer(h);
      RefreshIsRun(cfg, b, rest, answer, now);
      if a.seeders.Some? {
        RefreshOne(cfg, b, RefreshOps(rest, answer, now), RefreshUpdates(rest, answer, now), h, a, now);
      } else {
        assert RefreshOps(rest, answer, now) + [] == RefreshOps(rest, answer, now);
        assert RefreshUpdates(rest, answer, now) + [] == RefreshUpdates(rest, answer, now);
      }
    }
  }

  // ---- the watchdog's sweep ----

  /** A torrent of the session; `fetched` is `None` without live counters. */
  datatype SessionTorrent = SessionTorrent(hash: Hash, finished: bool, checked: nat, fetched: Option<nat>)

  datatype Tripped = Tripped(hash: Hash, trip: Trip)

  datatype Swept = Swept(watch: map<Hash, WatchState>, trips: seq<Tripped>, progress: seq<Verified>, seen: set<Hash>, lifts: seq<Hash>)

  function SweepOne(s: Swept, t: SessionTorrent, registered: set<Hash>, threshold: nat, minWindows: nat): Swept {
    if t.finished then
      s.(watch := s.watch - {t.hash}, seen := s.seen + {t.hash}, lifts := if t.hash in registered then s.lifts + [t.hash] else s.lifts)
    else if t.fetched.None? then s.(seen := s.seen + {t.hash})
    else
      var prev := Watched(s.watch, t.hash);
      var trip := Verdict(prev, t.checked, t.fetched.value, threshold, minWindows);
      Swept(s.watch[t.hash := Advance(prev, t.checked, t.fetched.value)],
            if trip.Some? then s.trips + [Tripped(t.hash, trip.value)] else s.trips,
            if t.checked > 0 then s.progress + [Verified(t.hash, t.checked)] else s.progress,
            s.seen + {t.hash}, s.lifts)
  }

  function SweepAll(watch: map<Hash, WatchState>, session: seq<SessionTorrent>, registered: set<Hash>, threshold: nat, minWindows: nat): Swept {
    if session == [] then Swept(watch, [], [], {}, [])
    else SweepOne(SweepAll(watch, session[..|session| - 1], registered, threshold, minWindows),
                  session[|session| - 1], registered, threshold, minWindows)
  }

  /** A sweep, as the calls the detector sees. */
  function SweepFeeds(session: seq<SessionTorrent>): seq<Feed> {
    if session == [] then []
    else
      var t := session[|session| - 1];
      SweepFeeds(session[..|session| - 1]) + FeedOf(t)
  }

  function FeedOf(t: SessionTorrent): seq<Feed> {
    if t.finished then [Forgotten(t.hash)]
    else if t.fetched.None? then []
    else [Observed(t.hash, t.checked, t.fetched.value)]
  }

  lemma CallExtendsHistory(calls: seq<Feed>, s: Swept, t: SessionTorrent, registered: set<Hash>, threshold: nat, minWindows: nat)
    requires s.watch == After(calls)
    ensures SweepOne(s, t, registered, threshold, minWindows).watch == After(calls + FeedOf(t))
  {
    if FeedOf(t) == [] {
      assert calls + [] == calls;
    } else {
      assert (calls + FeedOf(t))[..|calls|] == calls;
    }
  }

  /** So the sweep's detector is the one whose trips are characterised over its whole history of calls. */
  lemma {:induction false} SweepExtendsHistory(feeds: seq<Feed>, session: seq<SessionTorrent>, registered: set<Hash>, threshold: nat, minWindows: nat)
    ensures SweepAll(After(feeds), session, registered, threshold, minWindows).watch == After(feeds + SweepFeeds(session))
  {
    if session == [] {
      assert feeds + [] == feeds;
    } else {
      var before, t := session[..|session| - 1], session[|session| - 1];
      SweepExtendsHistory(feeds, before, registered, threshold, minWindows);
      var calls := feeds + SweepFeeds(before);
      CallExtendsHistory(calls, SweepAll(After(feeds), before, registered, threshold, minWindows), t, registered, threshold, minWindows);
      assert feeds + (SweepFeeds(before) + FeedOf(t)) == calls + FeedOf(t);
    }
  }

  /** The sweep lifts exactly the registered hashes the session reports finished. */
  lemma {:induction false} SweepLiftsFinished(watch: map<Hash, WatchState>, session: seq<SessionTorrent>, registered: set<Hash>, threshold: nat, minWindows: nat, h: Hash)
    ensures h in SweepAll(watch, session, registered, threshold, minWindows).lifts
            <==> h in registered && exists t :: t in session && t.hash == h && t.finished
  {
    if session != [] {
      var before, t := session[..|session| - 1], session[|session| - 1];
      SweepLiftsFinished(watch, before, registered, threshold, minWindows, h);
      assert session == before + [t];
    }
  }

  /** The race catch: verified in full, before the session's own flag says so. */
  function RaceLifts(progress: seq<Verified>, registered: set<Hash>, held: map<Hash, Torrent>): seq<Hash> {
    if progress == [] then []
    else
      var p := progress[|progress| - 1];
      RaceLifts(progress[..|progress| - 1], registered, held)
      + if p.hash in registered && CompletionLifts(p.checked, if p.hash in held then held[p.hash].size else 0) then [p.hash] else []
  }

  /** The race catch never lifts short of every registered byte, nor a hash that is not held. */
  lemma {:induction false} RaceLiftsAreComplete(progress: seq<Verified>, registered: set<Hash>, held: map<Hash, Torrent>, h: Hash)
    ensures h in RaceLifts(progress, registered, held)
            <==> h in registered && h in held && held[h].size > 0 && exists p :: p in progress && p.hash == h && p.checked >= held[h].size
  {
    if progress != [] {
      var before, p := progress[..|progress| - 1], progress[|progress| - 1];
      RaceLiftsAreComplete(before, registered, held, h);
      assert progress == before + [p];
    }
  }

  function LiftOps(hashes: seq<Hash>, now: int): seq<Op> {
    if hashes == [] then [] else LiftOps(hashes[..|hashes| - 1], now) + [Lift(hashes[|hashes| - 1], now)]
  }

  lemma {:induction false} LiftIsRun(cfg: Config, b: Books, hashes: seq<Hash>, now: int)
    ensures Run(cfg, b, LiftOps(hashes, now)) == b.(quarantined := WithoutHashes(b.quarantined, hashes))
    ensures LawfulRun(cfg, b, LiftOps(hashes, now)) && Upkeep(LiftOps(hashes, now))
  {
    if hashes != [] {
      LiftIsRun(cfg, b, hashes[..|hashes| - 1], now);
      RunSnoc(cfg, b, LiftOps(hashes[..|hashes| - 1], now), Lift(hashes[|hashes| - 1], now));
    }
  }

  // ---- collection of orphaned entries ----

  /** `r` lists `s` from the smallest up. */
  ghost predicate Ascending(r: seq<Hash>, s: set<Hash>) {
    if r == [] then s == {}
    else
      var last := r[|r| - 1];
      last in s && (forall x :: x in s ==> x <= last) && Ascending(r[..|r| - 1], s - {last})
  }

  predicate Lapsed(b: Books, h: Hash, now: int) {
    h in b.quarantined && b.quarantined[h].cooldownUntil <= now
  }

  /** In neither the held set, nor the session, nor the last catalog, and past its cooldown. */
  function Orphans(b: Books, seen: set<Hash>, catalog: Option<set<Hash>>, now: int): set<Hash> {
    set h | h in b.quarantined && h !in seen && h !in b.held && catalog.Some? && h !in catalog.value && Lapsed(b, h, now)
  }

  function CollectOps(hashes: seq<Hash>, now: int): seq<Op> {
    if hashes == [] then [] else CollectOps(hashes[..|hashes| - 1], now) + [Collect(hashes[|hashes| - 1], now)]
  }

  lemma {:induction false} CollectIsRun(cfg: Config, b: Books, hashes: seq<Hash>, orphans: set<Hash>, now: int)
    requires Ascending(hashes, orphans) && forall h :: h in orphans ==> Lapsed(b, h, now) && h !in b.held
    ensures Run(cfg, b, CollectOps(hashes, now)) == b.(quarantined := WithoutHashes(b.quarantined, hashes))
    ensures LawfulRun(cfg, b, CollectOps(hashes, now)) && Upkeep(CollectOps(hashes, now))
    ensures forall h :: h in b.quarantined && h !in orphans ==> Same(h, WithoutHashes(b.quarantined, hashes), b.quarantined)
  {
    if hashes != [] {
      var before, last := hashes[..|hashes| - 1], hashes[|hashes| - 1];
      CollectIsRun(cfg, b, before, orphans - {last}, now);
      RunSnoc(cfg, b, CollectOps(before, now), Collect(last, now));
      assert Same(last, WithoutHashes(b.quarantined, before), b.quarantined);
    }
  }

  predicate Same(h: Hash, a: map<Hash, Quarantine>, b: map<Hash, Quarantine>) {
    h in a && h in b && a[h] == b[h]
  }

  // ---- re-probes ----

  function ToProbe(b: Books, now: int): set<Hash> {
    set h | h in b.quarantined && h !in b.held && Lapsed(b, h, now)
  }

  /** What the world answers a probe: metadata, then a scrape, both required. */
  datatype ProbeAnswer = ProbeAnswer(meta: Option<Meta>, seeders: Option<nat>)

  predicate Probes(p: Progress, h: Hash, listed: set<Hash>, answer: ProbeAnswer) {
    h !in p.books.held && h in listed && answer.meta.Some? && answer.seeders.Some?
  }

  function ProbeCandidate(h: Hash, answer: ProbeAnswer): Candidate
    requires answer.meta.Some? && answer.seeders.Some?
  {
    Selector.Candidate(h, answer.meta.value.size, answer.meta.value.pieces, answer.seeders.value)
  }

  function Rearmed(cfg: Config, p: Progress, h: Hash, now: int): Progress {
    Progress(Apply(cfg, p.books, Rearm(h, now)), p.count, p.ops + [Rearm(h, now)])
  }

  /** Act first, then re-arm: the gate would otherwise refuse the probe just decided. */
  ghost function ProbeOne(cfg: Config, p: Progress, h: Hash, listed: set<Hash>, answer: ProbeAnswer, floor: nat, env: Env, now: int): Progress {
    if Probes(p, h, listed, answer) then Rearmed(cfg, ActOne(cfg, p, ProbeCandidate(h, answer), floor, env), h, now) else p
  }

  ghost function ProbeAll(cfg: Config, b: Books, count: nat, order: seq<Hash>, listed: set<Hash>, answers: Hash -> ProbeAnswer,
                          floor: nat, world: Hash -> Env, now: int): Progress
  {
    if order == [] then Progress(b, count, [])
    else
      var h := order[|order| - 1];
      ProbeOne(cfg, ProbeAll(cfg, b, count, order[..|order| - 1], listed, answers, floor, world, now), h, listed, answers(h), floor, world(h), now)
  }

  /** A re-probing pass so far: a lawful run, with the entries still to be probed as they were. */
  ghost predicate ProbingOnCourse(cfg: Config, b: Books, p: Progress, order: seq<Hash>, m: Measure) {
    && p.books == Run(cfg, b, p.ops)
    && LawfulRun(cfg, b, p.ops) && AllMeasured(m, p.ops)
    && |p.books.held| <= p.count
    && forall h :: h in b.quarantined && h !in order ==> Same(h, p.books.quarantined, b.quarantined)
  }

  lemma EntryExtends(cfg: Config, p: Progress, op: Op, count: nat, m: Measure)
    requires op.Enter? && Lawful(cfg, p.books, op) && Measured(m, op)
    ensures var q := Progress(Apply(cfg, p.books, op), count, p.ops + [op]);
            Extended(cfg, p, op, q, m) && q.books.quarantined == p.books.quarantined
  {
  }

  lemma ActKeepsRegistry(cfg: Config, p: Progress, c: Candidate, floor: nat, env: Env, m: Measure)
    requires ValidConfig(cfg) && Keyed(p.books.held) && Honest(env) && MeasuredEnv(m, env) && |p.books.held| <= p.count
    ensures var q := ActOne(cfg, p, c, floor, env);
            && q.books.quarantined == p.books.quarantined
            && |q.books.held| <= q.count
            && (q == p || exists op :: Extended(cfg, p, op, q, m))
  {
    DecisionIsLawful(cfg, p.books, p.count, c, floor, env, true);
    var op := Decide(cfg, p.books, p.count, c, floor, env, true);
    if op.Some? {
      EntryExtends(cfg, p, op.value, CountAfter(p.count, op), m);
      assert Extended(cfg, p, op.value, ActOne(cfg, p, c, floor, env), m);
    }
  }

  /** One more lawful operation. */
  ghost predicate Extended(cfg: Config, p: Progress, op: Op, q: Progress, m: Measure) {
    q.ops == p.ops + [op] && Lawful(cfg, p.books, op) && q.books == Apply(cfg, p.books, op) && Measured(m, op)
  }

  lemma ActOnCourse(cfg: Config, b: Books, p: Progress, q: Progress, m: Measure)
    requires p.books == Run(cfg, b, p.ops) && LawfulRun(cfg, b, p.ops) && AllMeasured(m, p.ops)
    requires q == p || exists op :: Extended(cfg, p, op, q, m)
    ensures q.books == Run(cfg, b, q.ops) && LawfulRun(cfg, b, q.ops) && AllMeasured(m, q.ops)
  {
    if q != p {
      var op :| Extended(cfg, p, op, q, m);
      RunSnoc(cfg, b, p.ops, op);
      MeasuredSnoc(m, p.ops, op);
    }
  }

  lemma RearmOnCourse(cfg: Config, b: Books, p: Progress, h: Hash, now: int, m: Measure)
    requires p.books == Run(cfg, b, p.ops) && LawfulRun(cfg, b, p.ops) && AllMeasured(m, p.ops) && Lapsed(p.books, h, now)
    ensures var q := Rearmed(cfg, p, h, now);
            q.books == Run(cfg, b, q.ops) && LawfulRun(cfg, b, q.ops) && q.books.held == p.books.held && AllMeasured(m, q.ops)
    ensures forall g :: g in p.books.quarantined && g != h ==> Same(g, Rearmed(cfg, p, h, now).books.quarantined, p.books.quarantined)
  {
    RunSnoc(cfg, b, p.ops, Rearm(h, now));
    MeasuredSnoc(m, p.ops, Rearm(h, now));
  }

  lemma ActForProbe(cfg: Config, b: Books, p: Progress, c: Candidate, floor: nat, env: Env, m: Measure)
    requires ValidConfig(cfg) && Keyed(b.held) && Honest(env) && MeasuredEnv(m, env)
    requires p.books == Run(cfg, b, p.ops) && LawfulRun(cfg, b, p.ops) && AllMeasured(m, p.ops) && |p.books.held| <= p.count
    ensures var q := ActOne(cfg, p, c, floor, env);
            && q.books == Run(cfg, b, q.ops) && LawfulRun(cfg, b, q.ops) && AllMeasured(m, q.ops)
            && q.books.quarantined == p.books.quarantined && |q.books.held| <= q.count
  {
    RunStaysKeyed(cfg, b, p.ops);
    ActKeepsRegistry(cfg, p, c, floor, env, m);
    ActOnCourse(cfg, b, p, ActOne(cfg, p, c, floor, env), m);
  }

  lemma ProbeOneOnCourse(cfg: Config, b: Books, p: Progress, before: seq<Hash>, h: Hash, listed: set<Hash>, answer: ProbeAnswer, floor: nat, env: Env, now: int, m: Measure)
    requires ValidConfig(cfg) && Keyed(b.held) && Honest(env) && MeasuredEnv(m, env)
    requires ProbingOnCourse(cfg, b, p, before, m) && h !in before && Lapsed(b, h, now)
    ensures ProbingOnCourse(cfg, b, ProbeOne(cfg, p, h, listed, answer, floor, env, now), before + [h], m)
  {
    if Probes(p, h, listed, answer) {
      var c := ProbeCandidate(h, answer);
      var q := ActOne(cfg, p, c, floor, env);
      ActForProbe(cfg, b, p, c, floor, env, m);
      assert Same(h, p.books.quarantined, b.quarantined);
      RearmOnCourse(cfg, b, q, h, now, m);
      var r := Rearmed(cfg, q, h, now).books.quarantined;
      forall g | g in b.quarantined && g !in before + [h] ensures Same(g, r, b.quarantined) {
        assert Same(g, p.books.quarantined, b.quarantined);
        assert g != h;
      }
    }
  }

  lemma {:induction false} AscendingMembers(r: seq<Hash>, s: set<Hash>)
    requires Ascending(r, s)
    ensures forall h :: h in r ==> h in s
    ensures r != [] ==> r[|r| - 1] !in r[..|r| - 1]
  {
    if r != [] {
      AscendingMembers(r[..|r| - 1], s - {r[|r| - 1]});
      assert r == r[..|r| - 1] + [r[|r| - 1]];
    }
  }

  ghost predicate AllLapsed(b: Books, hashes: set<Hash>, now: int) {
    forall h :: h in hashes ==> Lapsed(b, h, now)
  }

  lemma AscendingStep(b: Books, order: seq<Hash>, lapsed: set<Hash>, now: int)
    requires order != [] && Ascending(order, lapsed) && AllLapsed(b, lapsed, now)
    ensures var before, h := order[..|order| - 1], order[|order| - 1];
            && before + [h] == order && h !in before && Lapsed(b, h, now)
            && Ascending(before, lapsed - {h}) && AllLapsed(b, lapsed - {h}, now)
  {
    AscendingMembers(order, lapsed);
  }

  /** The watchdog's re-probes are a lawful run: each probe is re-armed only once lapsed, none displaces. */
  lemma {:induction false} ProbeAllOnCourse(cfg: Config, b: Books, count: nat, order: seq<Hash>, lapsed: set<Hash>, listed: set<Hash>,
                                            answers: Hash -> ProbeAnswer, floor: nat, world: Hash -> Env, now: int, m: Measure)
    requires ValidConfig(cfg) && Keyed(b.held) && Answers(world, m) && |b.held| <= count
    requires Ascending(order, lapsed) && AllLapsed(b, lapsed, now)
    ensures ProbingOnCourse(cfg, b, ProbeAll(cfg, b, count, order, listed, answers, floor, world, now), order, m)
  {
    if order != [] {
      var before, h := order[..|order| - 1], order[|order| - 1];
      AscendingStep(b, order, lapsed, now);
      ProbeAllOnCourse(cfg, b, count, before, lapsed - {h}, listed, answers, floor, world, now, m);
      ProbeOneOnCourse(cfg, b, ProbeAll(cfg, b, count, before, listed, answers, floor, world, now), before, h, listed, answers(h), floor, world(h), now, m);
    }
  }

  // ---- trips ----

  lemma TripsNext(trips: seq<Tripped>, k: nat, now: int)
    requires k < |trips|
    ensures TripOps(trips[..k + 1], now) == TripOps(trips[..k], now) + [TripOp(trips[k].hash, trips[k].trip, now)]
    ensures TrippedHashes(trips[..k + 1]) == TrippedHashes(trips[..k]) + {trips[k].hash}
  {
    assert trips[..k + 1][..k] == trips[..k];
  }

  function TrippedHashes(trips: seq<Tripped>): set<Hash> {
    if trips == [] then {} else TrippedHashes(trips[..|trips| - 1]) + {trips[|trips| - 1].hash}
  }

  function TripOps(trips: seq<Tripped>, now: int): seq<Op> {
    if trips == [] then []
    else TripOps(trips[..|trips| - 1], now) + [TripOp(trips[|trips| - 1].hash, trips[|trips| - 1].trip, now)]
  }

  lemma {:induction false} TripOpsAreLawful(cfg: Config, b: Books, trips: seq<Tripped>, now: int)
    ensures LawfulRun(cfg, b, TripOps(trips, now)) && Upkeep(TripOps(trips, now))
  {
    if trips != [] {
      TripOpsAreLawful(cfg, b, trips[..|trips| - 1], now);
      RunSnoc(cfg, b, TripOps(trips[..|trips| - 1], now), TripOp(trips[|trips| - 1].hash, trips[|trips| - 1].trip, now));
    }
  }
}
