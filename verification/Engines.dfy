/** The engine over its state file, its ledger and its detector: acting on candidates, the scan, the watchdog. */
module Engines {
  import opened Words
  import opened Sorting
  import opened Quarantines
  import opened Holdings
  import opened StateFile
  import opened Displacement
  import opened Acting
  import opened Maintenance
  import opened Daemon
  import Ram
  import Selector
  import History
  import LedgerCodec

  // ---- what the loops over a listing add up to ----

  lemma SumListed(listing: seq<Torrent>, held: map<Hash, Torrent>, f: Torrent -> nat)
    requires Lists(listing, held)
    ensures Sum(held, f) == SumSeq(listing, f)
  {
    SumDrawn(listing, held, f);
    NothingLeft(held);
  }

  lemma {:induction false} FilterSnoc(ts: seq<Torrent>, t: Torrent, p: Torrent -> bool)
    ensures Filter(ts + [t], p) == Filter(ts, p) + if p(t) then [t] else []
  {
    if ts == [] {
      assert [] + [t] == [t];
      assert [t][1..] == [];
    } else {
      var first, last := if p(ts[0]) then [ts[0]] else [], if p(t) then [t] else [];
      FilterSnoc(ts[1..], t, p);
      RestSnoc(ts, t);
      InTwoWays(first, Filter(ts[1..], p), last);
    }
  }

  lemma RestSnoc(ts: seq<Torrent>, t: Torrent)
    requires ts != []
    ensures (ts + [t])[1..] == ts[1..] + [t] && (ts + [t])[0] == ts[0]
  {
  }

  lemma InTwoWays(a: seq<Torrent>, b: seq<Torrent>, c: seq<Torrent>)
    ensures a + (b + c) == a + b + c
  {
  }

  /** A swap that was added and whose displaced have left is the swap decided, applied. */
  lemma SwapTaken(cfg: Config, b: Books, listing: seq<Torrent>, path: Path, c: Candidate, meta: Meta, floor: nat, roll: real, env: Env, ts: seq<Torrent>)
    requires Displaceable(Here(listing, path), c.seeders, SizeNeeded(meta.size), Price(cfg, meta.pieces), cfg) == Some(ts)
    requires !DeviceTooFull(env.swapFree(path), OnDisk(ts, env), SizeNeeded(meta.size))
    ensures var op := TryAdd(cfg, c, meta, path, ts, floor, roll, env.swapAdd(path), env.now).op;
            && SwapAt(cfg, listing, path, c, meta, floor, roll, env) == op
            && (op.Some? ==>
                  && op.value.Enter? && op.value.displaced == ts && ts != []
                  && Apply(cfg, b, op.value) ==
                       Books(b.held[c.hash := Newcomer(c, meta, path, env.now)] - HashSet(ts), b.quarantined, b.ledger + [EntryOf(cfg, op.value)]))
  {
  }

  class Engine {
    const cfg: Config
    const state: State
    const history: History.Writer<Event>
    const detector: Detector
    var lastCatalog: Option<set<Hash>>

    ghost predicate Valid()
      reads state, history
    {
      history.Valid() && Keyed(state.torrents) && ValidConfig(cfg)
    }

    /** The books the engine keeps: the two maps of its state, and everything it recorded. */
    ghost function Book(): Books
      reads state, history
    {
      Books(state.torrents, state.quarantined, history.recorded)
    }

    constructor (cfg: Config, state: State, history: History.Writer<Event>, detector: Detector)
      requires ValidConfig(cfg) && Keyed(state.torrents) && history.Valid()
      ensures Valid() && this.cfg == cfg && this.state == state && this.history == history && this.detector == detector
      ensures Book() == Books(state.torrents, state.quarantined, history.recorded) && lastCatalog == None
    {
      this.cfg, this.state, this.history, this.detector := cfg, state, history, detector;
      lastCatalog := None;
    }

    // ---- admission ----

    /** `ram_headroom_bytes`. */
    method RamHeadroomBytes(listing: seq<Torrent>) returns (room: nat)
      requires Lists(listing, state.torrents) && cfg.ramBudget <= U64_MAX
      ensures room == RamHeadroom(cfg, state.torrents)
    {
      var peerLimit := Ram.PeerLimitForBudget(cfg.ramBudget);
      var used := 0;
      for k := 0 to |listing|
        invariant used == Tally(listing[..k], HeldPrice(peerLimit))
      {
        TallyNext(listing, k, HeldPrice(peerLimit));
        var pieces := if listing[k].pieces > 0 then listing[k].pieces else 1024;
        used := SatAdd64(used, Ram.TorrentRam(pieces, peerLimit));
      }
      assert listing[..|listing|] == listing;
      SumListed(listing, state.torrents, HeldPrice(peerLimit));
      return SatSub(cfg.ramBudget, used);
    }

    /** `free_bytes`: the limit less what is held there, nominal sizes and buffers, and never more than the device has. */
    method FreeBytes(loc: Location, listing: seq<Torrent>, env: Env) returns (free: nat)
      requires Lists(listing, state.torrents) && loc.limit <= U64_MAX
      ensures free == FreeAt(state.torrents, loc, env)
    {
      var nominal: nat, count: nat := 0, 0;
      for k := 0 to |listing|
        invariant nominal + count * PER_TORRENT_SIZE_BUFFER == SumSeq(listing[..k], DiskShare(loc.path))
      {
        SumSeqSnoc(listing, k, DiskShare(loc.path));
        if listing[k].location == loc.path {
          nominal := nominal + listing[k].size;
          count := count + 1;
        }
      }
      assert listing[..|listing|] == listing;
      SumListed(listing, state.torrents, DiskShare(loc.path));
      free := SatSub(loc.limit, SatAdd64(nominal, count * PER_TORRENT_SIZE_BUFFER));
      match env.fillFree(loc.path)
      case Some(device) => free := Min(free, device);
      case None =>
    }

    // ---- acting on one candidate ----

    /** `try_add`: the torrent is stored and its event recorded; the displaced are still held. */
    method AddTorrent(c: Candidate, meta: Meta, path: Path, displaced: seq<Torrent>, floor: nat, roll: real, sessionAdds: bool, now: int)
      returns (added: bool, decision: Selector.SwapDecision)
      requires history.Valid()
      modifies state`torrents, history
      ensures history.Valid()
      ensures var placed := TryAdd(cfg, c, meta, path, displaced, floor, roll, sessionAdds, now);
              && decision == placed.decision
              && added == placed.op.Some?
              && state.torrents == (if added then old(state.torrents)[c.hash := Newcomer(c, meta, path, now)] else old(state.torrents))
              && history.recorded == old(history.recorded) + (if added then [EntryOf(cfg, placed.op.value)] else [])
    {
      decision := Selector.EvaluateSwap(c.seeders, floor, SeedersOf(displaced), cfg.minSeedMargin, cfg.aggressiveness, roll);
      if !decision.shouldSwap || !sessionAdds {
        return false, decision;
      }
      var t := Torrent(c.hash, meta.size, path, meta.pieces, c.seeders, now, 0, Some(now), Some(now));
      state.Put(t);
      var cause := if displaced == [] then Fill else Swap;
      history.Record(Add(c.hash, meta.size, c.seeders, path, cause, cfg.written(decision.chance), cfg.written(decision.roll),
                         floor, Hashes(displaced)));
      added := true;
    }

    /** The free-space half: nothing is tried at the cap, short of RAM, or without room. */
    method FillFreeSpace(c: Candidate, meta: Meta, floor: nat, roll: real, count: nat, env: Env)
      returns (added: bool, decision: Selector.SwapDecision)
      requires Valid() && Honest(env)
      modifies state`torrents, history
      ensures Valid()
      ensures var fill := TryFill(cfg, old(Book()), count, c, meta, floor, roll, env);
              && added == fill.op.Some? && decision == fill.decision
              && (added ==> fill.op.value.Enter? && fill.op.value.displaced == [])
              && Book() == Applied(cfg, old(Book()), fill.op)
    {
      decision := Selector.SwapDecision(false, 0.0, 0.0, Selector.NotEvaluated);
      added := false;
      if count >= cfg.maxTorrents {
        return;
      }
      var listing := env.listing(state.torrents);
      var headroom := RamHeadroomBytes(listing);
      if Ram.TorrentRam(meta.pieces, Ram.PeerLimitForBudget(cfg.ramBudget)) > headroom {
        return;
      }
      var free := FreeSpace(listing, env);
      var need := NeedList(cfg.storage, meta.size);
      var choice := Selector.ChooseLocation(free, need, env.locationRoll);
      if choice.Some? {
        added, decision := AddTorrent(c, meta, cfg.storage[choice.value].path, [], floor, roll, env.fillAdd, env.now);
        NothingTaken(state.torrents);
      }
    }

    method FreeSpace(listing: seq<Torrent>, env: Env) returns (free: seq<nat>)
      requires Valid() && Lists(listing, state.torrents)
      ensures free == FreeList(cfg.storage, state.torrents, env)
    {
      free := [];
      for k := 0 to |cfg.storage|
        invariant |free| == k && forall i :: 0 <= i < k ==> free[i] == FreeAt(state.torrents, cfg.storage[i], env)
      {
        var f := FreeBytes(cfg.storage[k], listing, env);
        free := free + [f];
      }
    }

    /** The displaced leave one by one. */
    method DropDisplaced(displaced: seq<Torrent>) returns (removed: nat)
      modifies state`torrents
      ensures state.torrents == old(state.torrents) - HashSet(displaced)
      ensures removed == |displaced|
    {
      removed := 0;
      NothingTaken(state.torrents);
      for k := 0 to |displaced|
        invariant state.torrents == old(state.torrents) - HashSet(displaced[..k])
        invariant removed == k
      {
        assert displaced[..k + 1][..k] == displaced[..k];
        MinusMore(old(state.torrents), HashSet(displaced[..k]), displaced[k].hash);
        state.Remove(displaced[k].hash);
        removed := removed + 1;
      }
      assert displaced[..|displaced|] == displaced;
    }

    /** `try_swap`: the first location, in path order, that pays and passes. */
    method TrySwap(c: Candidate, meta: Meta, floor: nat, roll: real, env: Env) returns (swapped: bool, removed: nat)
      requires Valid() && Honest(env)
      modifies state`torrents, history
      ensures Valid()
      ensures var op := Acting.TrySwap(cfg, old(Book()), c, meta, floor, roll, env);
              && swapped == op.Some?
              && (swapped ==> op.value.Enter? && op.value.displaced != [] && removed == |op.value.displaced|)
              && Book() == Applied(cfg, old(Book()), op)
    {
      var listing := env.listing(state.torrents);
      var locations := Paths(listing);
      var k := 0;
      while k < |locations|
        invariant 0 <= k <= |locations|
        invariant Valid() && Book() == old(Book())
        invariant SwapFrom(cfg, listing, Paths(listing), c, meta, floor, roll, env)
               == SwapFrom(cfg, listing, locations[k..], c, meta, floor, roll, env)
      {
        assert locations[k..][1..] == locations[k + 1..];
        swapped, removed := SwapHere(locations[k], listing, c, meta, floor, roll, env);
        if swapped {
          return;
        }
        k := k + 1;
      }
      return false, 0;
    }

    method SwapHere(location: Path, listing: seq<Torrent>, c: Candidate, meta: Meta, floor: nat, roll: real, env: Env)
      returns (swapped: bool, removed: nat)
      requires Valid()
      modifies state`torrents, history
      ensures Valid()
      ensures var op := SwapAt(cfg, listing, location, c, meta, floor, roll, env);
              && swapped == op.Some?
              && (swapped ==> op.value.Enter? && op.value.displaced != [] && removed == |op.value.displaced|)
              && Book() == Applied(cfg, old(Book()), op)
    {
      var displaced := SelectDisplaceable(Here(listing, location), c.seeders, SizeNeeded(meta.size),
                                          Ram.TorrentRam(meta.pieces, Ram.PeerLimitForBudget(cfg.ramBudget)), cfg);
      if displaced.None? {
        return false, 0;
      }
      if DeviceTooFull(env.swapFree(location), OnDisk(displaced.value, env), SizeNeeded(meta.size)) {
        return false, 0;
      }
      var ok, decision := AddTorrent(c, meta, location, displaced.value, floor, roll, env.swapAdd(location), env.now);
      SwapTaken(cfg, old(Book()), listing, location, c, meta, floor, roll, env, displaced.value);
      if !ok {
        return false, 0;
      }
      removed := DropDisplaced(displaced.value);
      swapped := true;
    }

    /** Fill, then swap; the running count follows. */
    method PlaceCandidate(c: Candidate, meta: Meta, count: nat, floor: nat, probe: bool, env: Env) returns (countAfter: nat)
      requires Valid() && Honest(env)
      modifies state`torrents, history
      ensures Valid()
      ensures var op := Place(cfg, old(Book()), count, c, meta, floor, probe, env, true);
              && Book() == Applied(cfg, old(Book()), op)
              && countAfter == CountAfter(count, op)
    {
      var roll := if probe then -1.0 else env.roll;
      ghost var b := Book();
      var added, decision := FillFreeSpace(c, meta, floor, roll, count, env);
      if added {
        PlacedByFill(cfg, b, count, c, meta, floor, probe, env);
        return count + 1;
      }
      if decision.SeedScarcityBlocked() || probe {
        PlacedNowhere(cfg, b, count, c, meta, floor, probe, env);
        return count;
      }
      PlacedBySwap(cfg, b, count, c, meta, floor, env);
      var swapped, removed := TrySwap(c, meta, floor, roll, env);
      if !swapped {
        return count;
      }
      SwapCounts(count, Acting.TrySwap(cfg, b, c, meta, floor, roll, env).value);
      countAfter := SatSub(count + 1, removed);
    }

    /** `act_on_candidate`: the quarantine gate, metadata, file handles, then one roll for every placement. */
    method ActOnCandidate(c: Candidate, count: nat, floor: nat, env: Env) returns (countAfter: nat)
      requires Valid() && Honest(env)
      modifies state`torrents, history
      ensures Valid()
      ensures var op := Decide(cfg, old(Book()), count, c, floor, env, true);
              && Book() == Applied(cfg, old(Book()), op)
              && countAfter == CountAfter(count, op)
    {
      var probe := c.hash in state.quarantined && env.now >= state.quarantined[c.hash].cooldownUntil;
      if c.hash in state.quarantined && !probe {
        return count;
      }
      if env.meta.None? || !FitsInHeadroom(env.meta.value.files, env.fdHeadroom) {
        return count;
      }
      countAfter := PlaceCandidate(c, env.meta.value, count, floor, probe, env);
    }

    // ---- acting on the arrivals of a scan ----

    /** Where an acting phase stands: the books and the running count after acting on `done`, in order. */
    ghost predicate Stands(start: Books, count: nat, done: seq<Candidate>, floor: nat, world: Hash -> Env, countNow: nat)
      reads state, history
    {
      var p := ActAll(cfg, start, count, done, floor, world);
      Book() == p.books && countNow == p.count
    }

    method ActOnNext(c: Candidate, count: nat, floor: nat, world: Hash -> Env, ghost start: Books, ghost startCount: nat, ghost done: seq<Candidate>)
      returns (countAfter: nat)
      requires Valid() && Honest(world(c.hash)) && Stands(start, startCount, done, floor, world, count)
      modifies state`torrents, history
      ensures Valid() && Stands(start, startCount, done + [c], floor, world, countAfter)
    {
      countAfter := ActOnCandidate(c, count, floor, world(c.hash));
      ActAllConcat(cfg, start, startCount, done, c, floor, world);
    }

    /** One place of a window: skipped if its hash was acted on before. */
    method ActUnlessActed(sel: seq<Candidate>, k: nat, acted: set<Hash>, count: nat, floor: nat, world: Hash -> Env,
                          ghost start: Books, ghost startCount: nat, ghost done: seq<Candidate>)
      returns (actedAfter: set<Hash>, countAfter: nat)
      requires Valid() && Answers(world, Anything) && k < |sel|
      requires acted == CandidateHashes(ActWindow(done, sel[..k]))
      requires Stands(start, startCount, ActWindow(done, sel[..k]), floor, world, count)
      modifies state`torrents, history
      ensures Valid()
      ensures actedAfter == CandidateHashes(ActWindow(done, sel[..k + 1]))
      ensures Stands(start, startCount, ActWindow(done, sel[..k + 1]), floor, world, countAfter)
    {
      ghost var now := ActWindow(done, sel[..k]);
      WindowNext(done, sel, k);
      if sel[k].hash in acted {
        return acted, count;
      }
      HashesSnoc(now, sel[k]);
      actedAfter := acted + {sel[k].hash};
      countAfter := ActOnNext(sel[k], count, floor, world, start, startCount, now);
    }

    /** `act_on_windowed`: the top of the ranking so far, each hash at most once a scan. */
    method ActOnWindowed(evaluated: seq<Candidate>, acted: set<Hash>, count: nat, floor: nat, world: Hash -> Env,
                         ghost start: Books, ghost startCount: nat, ghost done: seq<Candidate>)
      returns (actedAfter: set<Hash>, countAfter: nat)
      requires Valid() && Answers(world, Anything)
      requires acted == CandidateHashes(done) && Stands(start, startCount, done, floor, world, count)
      modifies state`torrents, history
      ensures Valid()
      ensures actedAfter == CandidateHashes(ActWindow(done, TopWindow(cfg, evaluated)))
      ensures Stands(start, startCount, ActWindow(done, TopWindow(cfg, evaluated)), floor, world, countAfter)
    {
      var sel := Selector.RankCandidates(evaluated, cfg.sizeBias, Ram.PeerLimitForBudget(cfg.ramBudget), cfg.power);
      var window := Min(cfg.maxTorrents, |sel|);
      actedAfter, countAfter := acted, count;
      var k := 0;
      while k < window
        invariant 0 <= k <= window && Valid()
        invariant actedAfter == CandidateHashes(ActWindow(done, sel[..k]))
        invariant Stands(start, startCount, ActWindow(done, sel[..k]), floor, world, countAfter)
      {
        actedAfter, countAfter := ActUnlessActed(sel, k, actedAfter, countAfter, floor, world, start, startCount, done);
        k := k + 1;
      }
      assert sel[..window] == TopWindow(cfg, evaluated);
    }

    /** The consuming loop of a scan: a window at every full batch, and one more for an unfinished one. */
    method ConsumeArrivals(arrivals: seq<Candidate>, floor: nat, world: Hash -> Env)
      requires Valid() && Answers(world, Anything)
      modifies state`torrents, history
      ensures Valid()
      ensures Book() == ActAll(cfg, old(Book()), |old(Book()).held|, ActedOn(cfg, arrivals), floor, world).books
    {
      ghost var start := Book();
      ghost var startCount := |state.torrents|;
      var acted: set<Hash>, count: nat := {}, |state.torrents|;
      var batch := [];
      var k := 0;
      while k < |arrivals|
        invariant 0 <= k <= |arrivals| && Valid() && batch == arrivals[..k]
        invariant acted == CandidateHashes(ActedDuring(cfg, batch))
        invariant Stands(start, startCount, ActedDuring(cfg, batch), floor, world, count)
      {
        ghost var done := ActedDuring(cfg, batch);
        DuringNext(cfg, batch, arrivals[k]);
        batch := batch + [arrivals[k]];
        k := k + 1;
        if |batch| % BATCH == 0 {
          acted, count := ActOnWindowed(batch, acted, count, floor, world, start, startCount, done);
        }
      }
      assert batch == arrivals;
      if k % BATCH != 0 {
        acted, count := ActOnWindowed(batch, acted, count, floor, world, start, startCount, ActedDuring(cfg, batch));
      }
    }

    // ---- the maintenance passes ----

    /** One held torrent leaves, with its event. */
    method Drop(t: Torrent, cause: Cause, now: int)
      requires Valid() && IsHeld(t, state.torrents)
      modifies state`torrents, history
      ensures Valid()
      ensures Book() == Apply(cfg, old(Book()), Leave(t.hash, cause, now))
    {
      state.Remove(t.hash);
      history.Record(Remove(t.hash, t.size, t.seeders, t.location, cause));
    }

    method WalkOn(listing: seq<Torrent>, k: nat, condemned: Torrent -> bool, cause: Cause, now: int, ghost start: Books)
      requires Valid() && Drawn(listing, start.held) && k < |listing|
      requires cause == DeletedFromCatalog ==> forall t :: condemned(t) ==> now - Anchor(t) >= cfg.vanishedTimeout
      requires Book() == Run(cfg, start, LeaveOps(Filter(listing[..k], condemned), cause, now))
      modifies state`torrents, history
      ensures Valid()
      ensures Book() == Run(cfg, start, LeaveOps(Filter(listing[..k + 1], condemned), cause, now))
    {
      WalkNext(cfg, start, listing, k, condemned, cause, now);
      if condemned(listing[k]) {
        StillHeld(cfg, start, listing, k, condemned, cause, now);
        Drop(listing[k], cause, now);
      }
    }

    /** The walk both removal passes make: every listed torrent the rule condemns leaves. */
    method DropAll(listing: seq<Torrent>, condemned: Torrent -> bool, cause: Cause, now: int)
      requires Valid() && Drawn(listing, state.torrents)
      requires cause == DeletedFromCatalog ==> forall t :: condemned(t) ==> now - Anchor(t) >= cfg.vanishedTimeout
      modifies state`torrents, history
      ensures Valid()
      ensures Book() == Run(cfg, old(Book()), LeaveOps(Filter(listing, condemned), cause, now))
    {
      ghost var start := Book();
      var k := 0;
      while k < |listing|
        invariant 0 <= k <= |listing| && Valid()
        invariant Book() == Run(cfg, start, LeaveOps(Filter(listing[..k], condemned), cause, now))
      {
        WalkOn(listing, k, condemned, cause, now, start);
        k := k + 1;
      }
      assert listing[..|listing|] == listing;
    }

    /** `remove_deleted_torrents`. */
    method RemoveDeletedTorrents(listing: seq<Torrent>, catalog: set<Hash>, now: int)
      requires Valid() && Drawn(listing, state.torrents)
      modifies state`torrents, history
      ensures Valid()
      ensures Book() == Run(cfg, old(Book()),
                            if cfg.preserveDeleted then [] else LeaveOps(Delisted(listing, catalog, now, cfg.vanishedTimeout), DeletedFromCatalog, now))
    {
      if cfg.preserveDeleted {
        return;
      }
      DropAll(listing, (t: Torrent) => PastGrace(t, catalog, now, cfg.vanishedTimeout), DeletedFromCatalog, now);
    }

    /** `evict_stalled_torrents`. */
    method EvictStalledTorrents(s: ScanInput)
      requires Valid() && ListsAll(s.stallOrder)
      modifies state`torrents, history
      ensures Valid()
      ensures Book() == Run(cfg, old(Book()), StallOps(cfg, old(Book()), s))
    {
      if cfg.stallTimeout == 0 {
        return;
      }
      var listing := s.stallOrder(state.torrents);
      assert Lists(listing, state.torrents);
      DropAll(listing, (t: Torrent) => HasStalled(t, s.catalog, s.stallAt, cfg.stallTimeout, s.views(t.hash)), Cause.Stalled, s.stallAt);
    }

    /** The collapse guard, then the removed-from-catalog pass if it stayed open. */
    method RemoveVanished(s: ScanInput)
      requires Valid() && ListsAll(s.removeOrder)
      modifies state`torrents, history
      ensures Valid()
      ensures Book() == AfterRemoval(cfg, old(Book()), s)
    {
      var held := s.removeOrder(state.torrents);
      assert Lists(held, state.torrents);
      var stillListed := |s.catalog * HashSet(held)|;
      var collapse := |held| > 0 && cfg.collapsePercent > 0 && stillListed < Max(|held| * cfg.collapsePercent / 100, 1);
      if !collapse {
        RemoveDeletedTorrents(held, s.catalog, s.removeAt);
      }
    }

    method ConfirmSurvivors(s: ScanInput)
      requires Valid() && ListsAll(s.confirmOrder)
      modifies state`torrents
      ensures Valid()
      ensures Book() == Apply(cfg, old(Book()), Confirm(s.catalog, s.confirmAt))
    {
      var listing := s.confirmOrder(state.torrents);
      assert Lists(listing, state.torrents);
      ConfirmIsOneStep(cfg, Book(), listing, s.catalog, s.confirmAt);
      var changed := state.UpdateEach(ConfirmUpdates(listing, s.catalog, s.confirmAt));
    }

    /** `refresh_held_seeder_counts`. */
    method RefreshHeldSeederCounts(s: ScanInput)
      requires Valid()
      modifies state`torrents
      ensures Valid()
      ensures Book() == Run(cfg, old(Book()), RefreshOps(s.refreshOrder(old(Book()).held), s.answers, s.refreshAt))
    {
      var listing := s.refreshOrder(state.torrents);
      RefreshIsRun(cfg, Book(), listing, s.answers, s.refreshAt);
      RunStaysKeyed(cfg, Book(), RefreshOps(listing, s.answers, s.refreshAt));
      var changed := state.UpdateEach(RefreshUpdates(listing, s.answers, s.refreshAt));
    }

    /** `scan_once`, uninterrupted. */
    method ScanOnce(s: ScanInput)
      requires Valid() && HonestScan(s, Anything)
      modifies this`lastCatalog, state`torrents, history
      ensures Valid()
      ensures Book() == AfterScan(cfg, old(Book()), s) && lastCatalog == Some(s.catalog)
    {
      lastCatalog := Some(s.catalog);
      RemoveVanished(s);
      ConfirmSurvivors(s);
      RefreshHeldSeederCounts(s);
      EvictStalledTorrents(s);
      ConsumeArrivals(s.arrivals, s.floor, s.world);
    }

    // ---- the quarantine watchdog ----

    ghost function Standing(): World
      reads this, state, history, detector
    {
      World(Book(), detector.watch, lastCatalog)
    }

    /** The sweep over the session: readings feed the detector, finished torrents are forgotten and lifted. */
    method SweepSession(session: seq<SessionTorrent>, registered: set<Hash>)
      returns (trips: seq<Tripped>, progress: seq<Verified>, seen: set<Hash>, lifts: seq<Hash>)
      modifies detector
      ensures Swept(detector.watch, trips, progress, seen, lifts)
           == SweepAll(old(detector.watch), session, registered, cfg.discardBytes, cfg.minWindows)
    {
      trips, progress, seen, lifts := [], [], {}, [];
      var k := 0;
      while k < |session|
        invariant 0 <= k <= |session|
        invariant Swept(detector.watch, trips, progress, seen, lifts)
               == SweepAll(old(detector.watch), session[..k], registered, cfg.discardBytes, cfg.minWindows)
      {
        assert session[..k + 1][..k] == session[..k];
        var t := session[k];
        seen := seen + {t.hash};
        if t.finished {
          detector.Forget(t.hash);
          if t.hash in registered {
            lifts := lifts + [t.hash];
          }
        } else if t.fetched.Some? {
          var trip := detector.Observe(t.hash, t.checked, t.fetched.value, cfg.discardBytes, cfg.minWindows);
          if trip.Some? {
            trips := trips + [Tripped(t.hash, trip.value)];
          }
          if t.checked > 0 {
            progress := progress + [Verified(t.hash, t.checked)];
          }
        }
        k := k + 1;
      }
      assert session[..|session|] == session;
    }

    /** The sweep, and the states of torrents no longer in the session dropped. */
    method SweepAndPrune(p: PassInput) returns (swept: Swept)
      modifies detector
      ensures swept == SweepOf(cfg, old(Standing()), p)
      ensures detector.watch == Kept(swept.watch, swept.seen)
    {
      var trips, progress, seen, lifts := SweepSession(p.session, state.quarantined.Keys);
      swept := Swept(detector.watch, trips, progress, seen, lifts);
      detector.RetainOnly(seen);
    }

    method RaceCatch(progress: seq<Verified>) returns (lifts: seq<Hash>)
      ensures lifts == RaceLifts(progress, state.quarantined.Keys, state.torrents)
    {
      lifts := [];
      for k := 0 to |progress|
        invariant lifts == RaceLifts(progress[..k], state.quarantined.Keys, state.torrents)
      {
        assert progress[..k + 1][..k] == progress[..k];
        var p := progress[k];
        if p.hash in state.quarantined {
          var size := if p.hash in state.torrents then state.torrents[p.hash].size else 0;
          if CompletionLifts(p.checked, size) {
            lifts := lifts + [p.hash];
          }
        }
      }
      assert progress[..|progress|] == progress;
    }

    /** Progress is stamped, completed re-probes are lifted, orphaned entries are dropped. */
    method LiftAndCollect(p: PassInput, swept: Swept, ghost w: World)
      requires Valid() && Book() == w.books && lastCatalog == w.lastCatalog && swept == SweepOf(cfg, w, p)
      modifies state
      ensures Valid()
      ensures Book() == AfterCollection(cfg, w, p)
    {
      var race := RaceCatch(swept.progress);
      var lifts := swept.lifts + race;
      ProgressIsRefreshes(cfg, w.books, swept.progress, p.sweepAt);
      RunStaysKeyed(cfg, w.books, ProgressOps(swept.progress, p.sweepAt));
      var changed := state.UpdateProgressMany(swept.progress, p.sweepAt);
      LiftIsRun(cfg, AfterProgress(cfg, w, p), lifts, p.sweepAt);
      var lifted := state.QuarantineRemoveMany(lifts);
      CollectOrphans(p, swept, w);
    }

    method CollectOrphans(p: PassInput, swept: Swept, ghost w: World)
      requires Valid() && Book() == AfterLifts(cfg, w, p) && lastCatalog == w.lastCatalog && swept == SweepOf(cfg, w, p)
      modifies state`quarantined
      ensures Valid()
      ensures Book() == AfterCollection(cfg, w, p)
    {
      var orphans := set h | h in state.quarantined && h !in swept.seen && h !in state.torrents && lastCatalog.Some?
                             && h !in lastCatalog.value && state.quarantined[h].cooldownUntil <= p.sweepAt;
      var gc := SortedHashes(orphans);
      assert orphans == Orphans(AfterLifts(cfg, w, p), swept.seen, w.lastCatalog, p.sweepAt);
      CollectIsRun(cfg, Book(), gc, orphans, p.sweepAt);
      var dropped := state.QuarantineRemoveMany(gc);
    }

    /** One lapsed entry: skipped, or acted on as a candidate and then re-armed. */
    method ProbeHash(h: Hash, listed: set<Hash>, answer: ProbeAnswer, count: nat, floor: nat, env: Env, now: int, ghost p: Progress)
      returns (countAfter: nat)
      requires Valid() && Honest(env) && Book() == p.books && count == p.count && |p.books.held| <= p.count
      requires Lapsed(p.books, h, now)
      modifies state, history
      ensures Valid()
      ensures var q := ProbeOne(cfg, p, h, listed, answer, floor, env, now);
              Book() == q.books && countAfter == q.count
    {
      if h in state.torrents || h !in listed || answer.meta.None? || answer.seeders.None? {
        return count;
      }
      ActKeepsRegistry(cfg, p, ProbeCandidate(h, answer), floor, env, Anything);
      var q := state.quarantined[h];
      var c := Selector.Candidate(h, answer.meta.value.size, answer.meta.value.pieces, answer.seeders.value);
      countAfter := ActOnCandidate(c, count, floor, env);
      state.QuarantinePut(h, q.(cooldownUntil := RearmedUntil(cfg, now)));
    }

    /** `quarantine_reprobe`: lapsed entries that are not held, in hash order, still listed. */
    method Reprobe(p: PassInput)
      requires Valid() && Answers(p.world, Anything)
      modifies this`lastCatalog, state, history
      ensures Valid()
      ensures Book() == ProbesOf(cfg, old(Book()), if old(lastCatalog).Some? then old(lastCatalog) else p.loaded, p).books
      ensures lastCatalog == if ToProbe(old(Book()), p.probeAt) == {} || old(lastCatalog).Some? then old(lastCatalog) else p.loaded
    {
      ghost var b := Book();
      var lapsed := set h | h in state.quarantined && h !in state.torrents && state.quarantined[h].cooldownUntil <= p.probeAt;
      assert lapsed == ToProbe(b, p.probeAt);
      var order := SortedHashes(lapsed);
      if order == [] {
        return;
      }
      if lastCatalog.None? {
        lastCatalog := p.loaded;
        if lastCatalog.None? {
          return;
        }
      }
      ProbeInOrder(order, lastCatalog.value, p, lapsed);
    }

    method ProbeInOrder(order: seq<Hash>, listed: set<Hash>, p: PassInput, ghost lapsed: set<Hash>)
      requires Valid() && Answers(p.world, Anything)
      requires Ascending(order, lapsed) && AllLapsed(Book(), lapsed, p.probeAt)
      modifies state, history
      ensures Valid()
      ensures Book() == ProbeAll(cfg, old(Book()), |old(Book()).held|, order, listed, p.probes, p.floor, p.world, p.probeAt).books
    {
      ghost var b := Book();
      var count: nat := |state.torrents|;
      var k := 0;
      while k < |order|
        invariant 0 <= k <= |order| && Valid()
        invariant Probed(b, order[..k], listed, p, count)
      {
        count := ProbeNth(order, k, listed, p, count, b, lapsed);
        k := k + 1;
      }
      assert order[..|order|] == order;
    }

    /** Where a re-probing pass over `b` stands after the hashes `done`. */
    ghost predicate Probed(b: Books, done: seq<Hash>, listed: set<Hash>, p: PassInput, count: nat)
      reads state, history
    {
      var probed := ProbeAll(cfg, b, |b.held|, done, listed, p.probes, p.floor, p.world, p.probeAt);
      Book() == probed.books && count == probed.count
    }

    method ProbeNth(order: seq<Hash>, k: nat, listed: set<Hash>, p: PassInput, count: nat, ghost b: Books, ghost lapsed: set<Hash>)
      returns (countAfter: nat)
      requires Valid() && Answers(p.world, Anything) && Keyed(b.held) && k < |order|
      requires Ascending(order, lapsed) && AllLapsed(b, lapsed, p.probeAt) && Probed(b, order[..k], listed, p, count)
      modifies state, history
      ensures Valid() && Probed(b, order[..k + 1], listed, p, countAfter)
    {
      ghost var probed := ProbeAll(cfg, b, |b.held|, order[..k], listed, p.probes, p.floor, p.world, p.probeAt);
      ProbeNext(cfg, b, order, k, listed, p);
      PrefixProbed(cfg, b, order, lapsed, k, listed, p);
      countAfter := ProbeHash(order[k], listed, p.probes(order[k]), count, p.floor, p.world(order[k]), p.probeAt, probed);
    }

    /** Every trip is enforced, held or not; only a held torrent's removal is recorded. */
    method EnforceTrips(trips: seq<Tripped>, now: int)
      requires Valid()
      modifies state, history, detector
      ensures Valid()
      ensures Book() == Run(cfg, old(Book()), TripOps(trips, now))
      ensures detector.watch == old(detector.watch) - TrippedHashes(trips)
    {
      ghost var b := Book();
      ghost var watch := detector.watch;
      assert watch - {} == watch;
      var k := 0;
      while k < |trips|
        invariant 0 <= k <= |trips| && Valid()
        invariant Book() == Run(cfg, b, TripOps(trips[..k], now))
        invariant detector.watch == watch - TrippedHashes(trips[..k])
      {
        TripsNext(trips, k, now);
        RunSnoc(cfg, b, TripOps(trips[..k], now), TripOp(trips[k].hash, trips[k].trip, now));
        EnforceTrip(trips[k].hash, trips[k].trip, now);
        MinusMore(watch, TrippedHashes(trips[..k]), trips[k].hash);
        k := k + 1;
      }
      assert trips[..|trips|] == trips;
    }

    method EnforceTrip(h: Hash, trip: Trip, now: int)
      requires Valid()
      modifies state, history, detector
      ensures Valid()
      ensures Book() == Apply(cfg, old(Book()), TripOp(h, trip, now))
      ensures detector.watch == old(detector.watch) - {h}
    {
      var q := NextQuarantineEntry(Entry(state.quarantined, h), trip, now, cfg.cooldown, cfg.maxRetries);
      if h !in state.torrents {
        MinusAbsent(state.torrents, h);
        state.QuarantinePut(h, q);
      } else {
        var t := state.torrents[h];
        state.QuarantineAndRemove(h, q);
        history.Record(Remove(h, t.size, t.seeders, t.location, Quarantined));
      }
      detector.Forget(h);
    }

    /** `quarantine_pass`. */
    method QuarantinePass(p: PassInput)
      requires Valid() && Answers(p.world, Anything)
      modifies this`lastCatalog, state, history, detector
      ensures Valid()
      ensures Standing() == AfterPass(cfg, old(Standing()), p)
    {
      if cfg.checkInterval == 0 {
        return;
      }
      ghost var w := Standing();
      var swept := SweepAndPrune(p);
      LiftAndCollect(p, swept, w);
      Reprobe(p);
      EnforceTrips(swept.trips, p.tripAt);
    }
  }

  /** A daemon's start over its state file and its ledger: from then on everything above can happen to it. */
  method Boot(cfg: Config, codec: History.Codec<Event>, cap: nat, torrents: map<Hash, Torrent>, quarantined: map<Hash, Quarantine>,
              previous: seq<byte>, live: seq<byte>)
    returns (engine: Engine)
    requires ValidConfig(cfg) && History.Faithful(codec) && Keyed(torrents)
    ensures fresh(engine) && engine.Valid() && engine.cfg == cfg
    ensures engine.Standing() == World(Books(torrents, quarantined, []), map[], None)
  {
    var state := new State(torrents, quarantined);
    var history := new History.Writer(codec, cap, previous, live);
    var detector := new Detector();
    engine := new Engine(cfg, state, history, detector);
  }

  /** And such starts are possible: there is a codec for every event. */
  lemma BootIsPossible()
    ensures exists codec: History.Codec<Event> :: History.Faithful(codec) && History.RejectsTornWrites(codec)
  {
    LedgerCodec.EventsCanBeWritten();
  }

  lemma ProbeNext(cfg: Config, b: Books, order: seq<Hash>, k: nat, listed: set<Hash>, p: PassInput)
    requires k < |order|
    ensures ProbeAll(cfg, b, |b.held|, order[..k + 1], listed, p.probes, p.floor, p.world, p.probeAt)
         == ProbeOne(cfg, ProbeAll(cfg, b, |b.held|, order[..k], listed, p.probes, p.floor, p.world, p.probeAt),
                     order[k], listed, p.probes(order[k]), p.floor, p.world(order[k]), p.probeAt)
  {
    assert order[..k + 1][..k] == order[..k];
  }

  /** What comes before an entry in the order is an order itself, without it. */
  lemma {:induction false} AscendingPrefix(b: Books, order: seq<Hash>, lapsed: set<Hash>, k: nat, now: int) returns (part: set<Hash>)
    requires k < |order| && Ascending(order, lapsed) && AllLapsed(b, lapsed, now)
    ensures Ascending(order[..k], part) && AllLapsed(b, part, now)
    ensures order[k] !in order[..k] && Lapsed(b, order[k], now)
    decreases |order|
  {
    var before, last := order[..|order| - 1], order[|order| - 1];
    AscendingStep(b, order, lapsed, now);
    part := lapsed - {last};
    if k < |order| - 1 {
      part := AscendingPrefix(b, before, part, k, now);
      assert before[..k] == order[..k] && before[k] == order[k];
    }
  }

  /** Before its turn, an entry to be probed is as the pass found it. */
  lemma PrefixProbed(cfg: Config, b: Books, order: seq<Hash>, lapsed: set<Hash>, k: nat, listed: set<Hash>, p: PassInput)
    requires ValidConfig(cfg) && Keyed(b.held) && Answers(p.world, Anything) && k < |order|
    requires Ascending(order, lapsed) && AllLapsed(b, lapsed, p.probeAt)
    ensures var probed := ProbeAll(cfg, b, |b.held|, order[..k], listed, p.probes, p.floor, p.world, p.probeAt);
            Lapsed(probed.books, order[k], p.probeAt) && |probed.books.held| <= probed.count
  {
    var part := AscendingPrefix(b, order, lapsed, k, p.probeAt);
    ProbeAllOnCourse(cfg, b, |b.held|, order[..k], part, listed, p.probes, p.floor, p.world, p.probeAt, Anything);
    StillLapsed(cfg, b, ProbeAll(cfg, b, |b.held|, order[..k], listed, p.probes, p.floor, p.world, p.probeAt), order[..k], order[k], p.probeAt);
  }

  lemma StillLapsed(cfg: Config, b: Books, probed: Progress, before: seq<Hash>, h: Hash, now: int)
    requires ProbingOnCourse(cfg, b, probed, before, Anything) && h !in before && Lapsed(b, h, now)
    ensures Lapsed(probed.books, h, now) && |probed.books.held| <= probed.count
  {
    assert Same(h, probed.books.quarantined, b.quarantined);
  }

  lemma WalkNext(cfg: Config, b: Books, listing: seq<Torrent>, k: nat, condemned: Torrent -> bool, cause: Cause, now: int)
    requires k < |listing|
    ensures Run(cfg, b, LeaveOps(Filter(listing[..k + 1], condemned), cause, now)) ==
              var before := Run(cfg, b, LeaveOps(Filter(listing[..k], condemned), cause, now));
              if condemned(listing[k]) then Apply(cfg, before, Leave(listing[k].hash, cause, now)) else before
  {
    var gone := Filter(listing[..k], condemned);
    assert listing[..k + 1] == listing[..k] + [listing[k]];
    FilterSnoc(listing[..k], listing[k], condemned);
    if condemned(listing[k]) {
      LeaveOpsSnoc(gone, listing[k], cause, now);
      RunSnoc(cfg, b, LeaveOps(gone, cause, now), Leave(listing[k].hash, cause, now));
    } else {
      assert gone + [] == gone;
    }
  }

  /** What the walk has not come to yet is still held as listed. */
  lemma StillHeld(cfg: Config, b: Books, listing: seq<Torrent>, k: nat, condemned: Torrent -> bool, cause: Cause, now: int)
    requires Drawn(listing, b.held) && k < |listing|
    requires cause == DeletedFromCatalog ==> forall t :: condemned(t) ==> now - Anchor(t) >= cfg.vanishedTimeout
    ensures IsHeld(listing[k], Run(cfg, b, LeaveOps(Filter(listing[..k], condemned), cause, now)).held)
  {
    var gone := Filter(listing[..k], condemned);
    PrefixDrawn(listing, k, b.held);
    FilterDrawn(listing[..k], condemned, b.held);
    LeaveTogether(cfg, b, gone, cause, now);
    DrawnIsDistinct(listing, b.held);
    forall t | t in gone ensures t.hash !in {listing[k].hash} {
      var i :| 0 <= i < k && listing[..k][i] == t;
      assert listing[i] != listing[k];
    }
    HashSetOfPart(gone, b.held, {listing[k].hash});
  }

}
