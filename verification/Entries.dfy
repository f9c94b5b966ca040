/**
 * What is decided for a candidate, told without the decision's own terms: who enters and when, what is stored
 * and recorded, and at whose cost.
 */
module Entries {
  import opened Words
  import opened Holdings
  import opened Displacement
  import opened Acting
  import Ram
  import Selector

  // ---- what is stored ----

  /** What enters is the candidate as its metadata and its scrape describe it, new and stamped now. */
  lemma EntryIsTheCandidate(cfg: Config, b: Books, count: nat, c: Candidate, floor: nat, env: Env, early: bool)
    requires ValidConfig(cfg) && Keyed(b.held) && Honest(env) && |b.held| <= count
    ensures var op := Decide(cfg, b, count, c, floor, env, early);
            op.Some? ==>
              && env.meta.Some? && op.value.Enter?
              && op.value.t.hash == c.hash
              && op.value.t.size == env.meta.value.size
              && op.value.t.pieces == env.meta.value.pieces
              && op.value.t.seeders == c.seeders
              && op.value.t.addedAt == env.now
              && op.value.t.completed == 0
              && op.value.t.progressAt == Some(env.now)
              && op.value.t.confirmedAt == Some(env.now)
              && op.value.at == env.now
              && op.value.seederFloor == floor
              && op.value.chance == Selector.SelectionChance(cfg.aggressiveness, c.seeders, floor)
              && op.value.roll == (if c.hash in b.quarantined then -1.0 else env.roll)
              && (op.value.cause == Fill <==> op.value.displaced == [])
              && (op.value.cause == Swap <==> op.value.displaced != [])
  {
    DecisionIsLawful(cfg, b, count, c, floor, env, early);
    DecisionCause(cfg, b, count, c, floor, env, early);
  }

  lemma AddCause(cfg: Config, c: Candidate, meta: Meta, path: Path, displaced: seq<Torrent>, floor: nat, roll: real, added: bool, now: int)
    ensures var op := TryAdd(cfg, c, meta, path, displaced, floor, roll, added, now).op;
            op.Some? ==> op.value.Enter? && op.value.displaced == displaced && op.value.cause == (if displaced == [] then Fill else Swap)
  {
  }

  lemma {:induction false} SwapCause(cfg: Config, listing: seq<Torrent>, paths: seq<Path>, c: Candidate, meta: Meta, floor: nat, roll: real, env: Env)
    ensures var op := SwapFrom(cfg, listing, paths, c, meta, floor, roll, env);
            op.Some? ==> op.value.Enter? && op.value.cause == Swap && op.value.displaced != []
  {
    if paths != [] {
      SwapCause(cfg, listing, paths[1..], c, meta, floor, roll, env);
    }
  }

  lemma DecisionCause(cfg: Config, b: Books, count: nat, c: Candidate, floor: nat, env: Env, early: bool)
    ensures var op := Decide(cfg, b, count, c, floor, env, early);
            op.Some? ==> op.value.Enter? && op.value.cause == (if op.value.displaced == [] then Fill else Swap)
  {
    if Decide(cfg, b, count, c, floor, env, early).Some? {
      DecisionComesFrom(cfg, b, count, c, floor, env, early);
      var listing := env.listing(b.held);
      SwapCause(cfg, listing, Paths(listing), c, env.meta.value, floor, env.roll, env);
      FillCause(cfg, b, count, c, env.meta.value, floor, RollFor(GateOf(b, c.hash, env.now), env), env);
    }
  }

  lemma FillCause(cfg: Config, b: Books, count: nat, c: Candidate, meta: Meta, floor: nat, roll: real, env: Env)
    ensures var op := TryFill(cfg, b, count, c, meta, floor, roll, env).op;
            op.Some? ==> op.value.Enter? && op.value.cause == Fill && op.value.displaced == []
  {
  }

  /** A fill goes to a configured location; a swap to the location of everything it displaces, all of it held. */
  lemma EntryHasAPlace(cfg: Config, b: Books, count: nat, c: Candidate, floor: nat, env: Env, early: bool)
    requires ValidConfig(cfg) && Keyed(b.held) && Honest(env) && |b.held| <= count
    ensures var op := Decide(cfg, b, count, c, floor, env, early);
            op.Some? ==>
              && op.value.Enter?
              && (op.value.displaced == [] ==> exists i :: 0 <= i < |cfg.storage| && cfg.storage[i].path == op.value.t.location)
              && (forall d :: d in op.value.displaced ==>
                    d.location == op.value.t.location && d.hash in b.held && b.held[d.hash] == d)
  {
    var op := Decide(cfg, b, count, c, floor, env, early);
    DecisionIsLawful(cfg, b, count, c, floor, env, early);
    if op.Some? {
      LawfulPlace(cfg, b, op.value);
      DecisionFillPlace(cfg, b, count, c, floor, env, early);
    }
  }

  lemma LawfulPlace(cfg: Config, b: Books, op: Op)
    requires op.Enter? && Lawful(cfg, b, op)
    ensures forall d :: d in op.displaced ==> d.location == op.t.location && d.hash in b.held && b.held[d.hash] == d
  {
    EntryIsDrawn(cfg, b, op);
    DrawnIsDistinct(op.displaced, b.held);
    forall d | d in op.displaced ensures d.location == op.t.location && d.hash in b.held && b.held[d.hash] == d {
      var i :| 0 <= i < |op.displaced| && op.displaced[i] == d;
      assert IsHeld(op.displaced[i], b.held);
    }
  }

  lemma DecisionFillPlace(cfg: Config, b: Books, count: nat, c: Candidate, floor: nat, env: Env, early: bool)
    ensures var op := Decide(cfg, b, count, c, floor, env, early);
            op.Some? && op.value.Enter? && op.value.displaced == [] ==>
              exists i :: 0 <= i < |cfg.storage| && cfg.storage[i].path == op.value.t.location
  {
    FillHasRoom(cfg, b, count, c, floor, env, early);
  }

  predicate AmongHashes(h: Hash, ts: seq<Torrent>) {
    exists i :: 0 <= i < |ts| && ts[i].hash == h
  }

  /** The books then hold exactly that torrent more, and the displaced less; every other torrent is as it was. */
  lemma EntryShowsInTheBooks(cfg: Config, b: Books, count: nat, c: Candidate, floor: nat, env: Env, early: bool, h: Hash)
    requires ValidConfig(cfg) && Keyed(b.held) && Honest(env) && |b.held| <= count && c.hash !in b.held
    ensures var op := Decide(cfg, b, count, c, floor, env, early);
            op.Some? ==>
              var after := Apply(cfg, b, op.value);
              && op.value.Enter?
              && c.hash in after.held && after.held[c.hash] == op.value.t
              && (h != c.hash ==> (h in after.held <==> h in b.held && !AmongHashes(h, op.value.displaced)))
              && (h != c.hash && h in after.held ==> after.held[h] == b.held[h])
              && after.quarantined == b.quarantined
  {
    var op := Decide(cfg, b, count, c, floor, env, early);
    if op.Some? {
      DecisionIsLawful(cfg, b, count, c, floor, env, early);
      EntryIsDrawn(cfg, b, op.value);
      DrawnIsHeld(op.value.displaced, b.held);
      HashSetHas(op.value.displaced, h);
      HashSetHas(op.value.displaced, c.hash);
    }
  }

  /** And the ledger has one more event, which says what was stored, why, and what left for it. */
  lemma EntryIsRecorded(cfg: Config, b: Books, count: nat, c: Candidate, floor: nat, env: Env, early: bool)
    requires ValidConfig(cfg) && Keyed(b.held) && Honest(env) && |b.held| <= count
    ensures var op := Decide(cfg, b, count, c, floor, env, early);
            op.Some? ==>
              var after := Apply(cfg, b, op.value);
              && op.value.Enter? && env.meta.Some?
              && |after.ledger| == |b.ledger| + 1 && after.ledger[..|b.ledger|] == b.ledger
              && var e := after.ledger[|b.ledger|];
                 && e.Add?
                 && e.hash == c.hash
                 && e.size == env.meta.value.size
                 && e.seeders == c.seeders
                 && e.location == op.value.t.location
                 && e.cause == op.value.cause
                 && e.chance == cfg.written(op.value.chance) && e.roll == cfg.written(op.value.roll)
                 && e.seederFloor == floor
                 && |e.displaced| == |op.value.displaced|
                 && forall i :: 0 <= i < |e.displaced| ==> e.displaced[i] == op.value.displaced[i].hash
  {
    EntryIsTheCandidate(cfg, b, count, c, floor, env, early);
    var op := Decide(cfg, b, count, c, floor, env, early);
    if op.Some? {
      RecordOf(cfg, b, op.value);
    }
  }

  lemma RecordOf(cfg: Config, b: Books, op: Op)
    requires op.Enter?
    ensures var after := Apply(cfg, b, op);
            && after.ledger == b.ledger + [after.ledger[|b.ledger|]]
            && var e := after.ledger[|b.ledger|];
               && e.Add? && e.hash == op.t.hash && e.size == op.t.size && e.seeders == op.t.seeders && e.location == op.t.location
               && e.cause == op.cause && e.chance == cfg.written(op.chance) && e.roll == cfg.written(op.roll)
               && e.seederFloor == op.seederFloor && |e.displaced| == |op.displaced|
               && forall i :: 0 <= i < |e.displaced| ==> e.displaced[i] == op.displaced[i].hash
  {
  }

  // ---- what the held torrents use ----

  /** Each held torrent uses its size and a buffer of a quarter mebibyte where it is, and nothing elsewhere. */
  lemma DiskUsedExactly(held: map<Hash, Torrent>, path: Path, h: Hash)
    ensures DiskUsed(map[], path) == 0
    ensures h in held ==>
              DiskUsed(held, path) == DiskUsed(held - {h}, path) + (if held[h].location == path then held[h].size + 262_144 else 0)
  {
    if h in held {
      SumWithout(held, h, DiskShare(path));
    }
  }

  /** Each is priced for its pieces, or for 1024 if their number is unknown. */
  lemma RamUsedExactly(held: map<Hash, Torrent>, cfg: Config, h: Hash)
    ensures RamUsed(map[], cfg) == 0
    ensures h in held ==>
              RamUsed(held, cfg) == RamUsed(held - {h}, cfg)
                + Ram.TorrentRam(if held[h].pieces == 0 then 1024 else held[h].pieces, Ram.PeerLimitForBudget(cfg.ramBudget))
  {
    if h in held {
      SumWithout(held, h, HeldPrice(Ram.PeerLimitForBudget(cfg.ramBudget)));
    }
  }

  // ---- when a candidate enters free space ----

  /** The footprint a location has to have room for, as it saturates. */
  function Footprint64(size: nat): nat {
    if size + 262_144 > 0xFFFF_FFFF_FFFF_FFFF then 0xFFFF_FFFF_FFFF_FFFF else size + 262_144
  }

  /** Within the limit beside what is held there, and within what the device has left, if that can be read. */
  ghost predicate HasRoom(cfg: Config, b: Books, i: nat, size: nat, env: Env)
    requires i < |cfg.storage|
  {
    && DiskUsed(b.held, cfg.storage[i].path) + Footprint64(size) <= cfg.storage[i].limit
    && (env.fillFree(cfg.storage[i].path).Some? ==> Footprint64(size) <= env.fillFree(cfg.storage[i].path).value)
  }

  /** Below the cap, within the budget beside the held, with room somewhere, a live seed, a won roll and a willing session. */
  ghost predicate FreeSpaceTakes(cfg: Config, b: Books, count: nat, c: Candidate, meta: Meta, floor: nat, roll: real, env: Env) {
    && count < cfg.maxTorrents
    && RamUsed(b.held, cfg) + Ram.TorrentRam(meta.pieces, Ram.PeerLimitForBudget(cfg.ramBudget)) <= cfg.ramBudget
    && (exists i :: 0 <= i < |cfg.storage| && HasRoom(cfg, b, i, meta.size, env))
    && c.seeders >= 1
    && roll < Selector.SelectionChance(cfg.aggressiveness, c.seeders, floor)
    && env.fillAdd
  }

  /** Its metadata can be had, and descriptors are left for its files and 512 sockets. */
  predicate CanBeTried(env: Env) {
    env.meta.Some? && (env.fdHeadroom.Some? ==> SatAdd64(env.meta.value.files, 512) <= env.fdHeadroom.value)
  }

  /**
   * A candidate enters free space exactly when it can be tried, no cooldown of it is running, and free space takes
   * it: on its one roll, or as a probe on none.
   */
  lemma EntersFreeSpaceExactly(cfg: Config, b: Books, count: nat, c: Candidate, floor: nat, env: Env, early: bool)
    requires ValidConfig(cfg)
    ensures var op := Decide(cfg, b, count, c, floor, env, early);
            op.Some? && op.value.Enter? && op.value.displaced == [] <==>
              && CanBeTried(env)
              && (c.hash in b.quarantined ==> b.quarantined[c.hash].cooldownUntil <= env.now)
              && FreeSpaceTakes(cfg, b, count, c, env.meta.value, floor, if c.hash in b.quarantined then -1.0 else env.roll, env)
  {
    var gate := GateOf(b, c.hash, env.now);
    if env.meta.Some? && gate != Shut {
      var meta := env.meta.value;
      var listing := env.listing(b.held);
      FillsExactly(cfg, b, count, c, meta, floor, RollFor(gate, env), env);
      FillCause(cfg, b, count, c, meta, floor, RollFor(gate, env), env);
      SwapCause(cfg, listing, Paths(listing), c, meta, floor, env.roll, env);
    }
  }

  /**
   * And it displaces others exactly when it can be tried, has no entry at all in the registry, free space does not
   * take it, and on its one roll some location that holds something can pay: then the first of them in path order,
   * by that location's own greedy choice.
   */
  lemma EntersBySwapExactly(cfg: Config, b: Books, count: nat, c: Candidate, floor: nat, env: Env)
    requires ValidConfig(cfg)
    ensures var op := Decide(cfg, b, count, c, floor, env, true);
            op.Some? && op.value.Enter? && op.value.displaced != [] <==>
              && CanBeTried(env)
              && c.hash !in b.quarantined
              && !FreeSpaceTakes(cfg, b, count, c, env.meta.value, floor, env.roll, env)
              && c.seeders >= 1
              && env.roll < Selector.SelectionChance(cfg.aggressiveness, c.seeders, floor)
              && exists t :: t in env.listing(b.held) && Pays(cfg, env.listing(b.held), t.location, c, env.meta.value, env)
    ensures var op, listing := Decide(cfg, b, count, c, floor, env, true), env.listing(b.held);
            op.Some? && op.value.Enter? && op.value.displaced != [] ==>
              && env.meta.Some?
              && TakesTheChoice(cfg, listing, c, env.meta.value, op.value)
              && forall t :: t in listing && t.location < op.value.t.location ==> !Pays(cfg, listing, t.location, c, env.meta.value, env)
  {
    EarlyReturnIsOnlyAFastPath(cfg, b, count, c, floor, env);
    var gate := GateOf(b, c.hash, env.now);
    if env.meta.Some? && gate != Shut {
      var meta := env.meta.value;
      var listing := env.listing(b.held);
      FillsExactly(cfg, b, count, c, meta, floor, RollFor(gate, env), env);
      FillCause(cfg, b, count, c, meta, floor, RollFor(gate, env), env);
      SwapCause(cfg, listing, Paths(listing), c, meta, floor, env.roll, env);
      if env.roll < Selector.SelectionChance(cfg.aggressiveness, c.seeders, floor) && c.seeders >= 1 {
        SwapsAtFirstPaying(cfg, listing, c, meta, floor, env.roll, env);
      } else {
        LostRollSwapsNothing(cfg, listing, Paths(listing), c, meta, floor, env.roll, env);
      }
    }
  }

  lemma FillsExactly(cfg: Config, b: Books, count: nat, c: Candidate, meta: Meta, floor: nat, roll: real, env: Env)
    ensures TryFill(cfg, b, count, c, meta, floor, roll, env).op.Some? <==> FreeSpaceTakes(cfg, b, count, c, meta, floor, roll, env)
  {
    ChoiceFindsRoom(cfg.storage, b.held, meta.size, env);
    forall i | 0 <= i < |cfg.storage|
      ensures HasRoom(cfg, b, i, meta.size, env) <==> FreeAt(b.held, cfg.storage[i], env) >= SizeNeeded(meta.size)
    {
      RoomIsFree(cfg, b, i, meta.size, env);
    }
  }

  lemma RoomIsFree(cfg: Config, b: Books, i: nat, size: nat, env: Env)
    requires i < |cfg.storage|
    ensures HasRoom(cfg, b, i, size, env) <==> FreeAt(b.held, cfg.storage[i], env) >= SizeNeeded(size)
  {
  }

  /** And where it enters there is that room, on the location and on its device. */
  lemma FillHasRoom(cfg: Config, b: Books, count: nat, c: Candidate, floor: nat, env: Env, early: bool)
    ensures var op := Decide(cfg, b, count, c, floor, env, early);
            op.Some? && op.value.Enter? && op.value.displaced == [] ==>
              env.meta.Some? && exists i :: 0 <= i < |cfg.storage| && cfg.storage[i].path == op.value.t.location
                                            && HasRoom(cfg, b, i, env.meta.value.size, env)
  {
    var op := Decide(cfg, b, count, c, floor, env, early);
    if op.Some? && op.value.Enter? && op.value.displaced == [] {
      DecisionComesFrom(cfg, b, count, c, floor, env, early);
      var meta, roll := env.meta.value, RollFor(GateOf(b, c.hash, env.now), env);
      var listing := env.listing(b.held);
      SwapCause(cfg, listing, Paths(listing), c, meta, floor, env.roll, env);
      FillRoom(cfg, b, count, c, meta, floor, roll, env);
    }
  }

  lemma FillRoom(cfg: Config, b: Books, count: nat, c: Candidate, meta: Meta, floor: nat, roll: real, env: Env)
    ensures var op := TryFill(cfg, b, count, c, meta, floor, roll, env).op;
            op.Some? ==> op.value.Enter? && exists i :: 0 <= i < |cfg.storage| && cfg.storage[i].path == op.value.t.location
                                                        && HasRoom(cfg, b, i, meta.size, env)
  {
    if TryFill(cfg, b, count, c, meta, floor, roll, env).op.Some? {
      var i := Selector.LocationChoice(FreeList(cfg.storage, b.held, env), NeedList(cfg.storage, meta.size), env.locationRoll).value;
      RoomIsFree(cfg, b, i, meta.size, env);
    }
  }

  /** What is left on a location: of its limit beside what is held, and no more than on its device. */
  ghost function LeftAt(cfg: Config, b: Books, i: nat, env: Env): nat
    requires i < |cfg.storage|
  {
    var used, limit, device := DiskUsed(b.held, cfg.storage[i].path), cfg.storage[i].limit, env.fillFree(cfg.storage[i].path);
    if used >= limit then 0
    else if device.Some? && device.value < limit - used then device.value
    else limit - used
  }

  /** Among the locations with room the one is filled that the location's own roll chooses, each weighted by what is left on it. */
  lemma FillGoesWhereTheRollFalls(cfg: Config, b: Books, count: nat, c: Candidate, floor: nat, env: Env, early: bool,
                                  free: seq<nat>, need: seq<nat>)
    requires env.meta.Some? && |free| == |cfg.storage| == |need|
    requires forall i :: 0 <= i < |free| ==> free[i] == LeftAt(cfg, b, i, env) && need[i] == Footprint64(env.meta.value.size)
    ensures var op := Decide(cfg, b, count, c, floor, env, early);
            op.Some? && op.value.Enter? && op.value.displaced == [] ==>
              exists i :: 0 <= i < |free| && cfg.storage[i].path == op.value.t.location
                          && Selector.LocationChoice(free, need, env.locationRoll) == Some(i)
  {
    var op := Decide(cfg, b, count, c, floor, env, early);
    if op.Some? && op.value.Enter? && op.value.displaced == [] {
      DecisionComesFrom(cfg, b, count, c, floor, env, early);
      var listing := env.listing(b.held);
      SwapCause(cfg, listing, Paths(listing), c, env.meta.value, floor, env.roll, env);
      assert op == TryFill(cfg, b, count, c, env.meta.value, floor, RollFor(GateOf(b, c.hash, env.now), env), env).op;
      ListsAre(cfg, b, env.meta.value.size, env, free, need);
      FillChosen(cfg, b, count, c, env.meta.value, floor, RollFor(GateOf(b, c.hash, env.now), env), env);
    }
  }

  lemma ListsAre(cfg: Config, b: Books, size: nat, env: Env, free: seq<nat>, need: seq<nat>)
    requires |free| == |cfg.storage| == |need|
    requires forall i :: 0 <= i < |free| ==> free[i] == LeftAt(cfg, b, i, env) && need[i] == Footprint64(size)
    ensures free == FreeList(cfg.storage, b.held, env) && need == NeedList(cfg.storage, size)
  {
    forall i | 0 <= i < |free| ensures free[i] == FreeAt(b.held, cfg.storage[i], env) {
      assert free[i] == LeftAt(cfg, b, i, env);
    }
  }

  lemma FillChosen(cfg: Config, b: Books, count: nat, c: Candidate, meta: Meta, floor: nat, roll: real, env: Env)
    ensures var op := TryFill(cfg, b, count, c, meta, floor, roll, env).op;
            var choice := Selector.LocationChoice(FreeList(cfg.storage, b.held, env), NeedList(cfg.storage, meta.size), env.locationRoll);
            op.Some? ==> op.value.Enter? && choice.Some? && choice.value < |cfg.storage| && cfg.storage[choice.value].path == op.value.t.location
  {
  }

  // ---- where a candidate swaps in ----

  lemma {:induction false} SameSums(ts: seq<Torrent>, f: Torrent -> nat, g: Torrent -> nat)
    requires forall t :: f(t) == g(t)
    ensures SumSeq(ts, f) == SumSeq(ts, g)
  {
    if ts != [] {
      SameSums(ts[..|ts| - 1], f, g);
    }
  }

  /**
   * The location can pay: some selection there covers both needs, the device has the footprint once what the
   * selection occupies on disk is gone, if that can be read, and the session takes the newcomer.
   */
  ghost predicate Pays(cfg: Config, listing: seq<Torrent>, path: Path, c: Candidate, meta: Meta, env: Env) {
    var ts := Displaceable(Here(listing, path), c.seeders, Footprint64(meta.size),
                           Ram.TorrentRam(meta.pieces, Ram.PeerLimitForBudget(cfg.ramBudget)), cfg);
    && ts.Some?
    && (env.swapFree(path).Some? ==>
          env.swapFree(path).value + SumSeq(ts.value, (t: Torrent) => env.onDisk(t.hash)) >= Footprint64(meta.size))
    && env.swapAdd(path)
  }

  lemma SwapsExactlyWherePaid(cfg: Config, listing: seq<Torrent>, path: Path, c: Candidate, meta: Meta, floor: nat, roll: real, env: Env)
    ensures var op := SwapAt(cfg, listing, path, c, meta, floor, roll, env);
            && (op.Some? <==> Pays(cfg, listing, path, c, meta, env) && c.seeders >= 1
                              && roll < Selector.SelectionChance(cfg.aggressiveness, c.seeders, floor))
            && (op.Some? ==>
                  && op.value.Enter? && op.value.t.location == path
                  && Displaceable(Here(listing, path), c.seeders, Footprint64(meta.size),
                                  Ram.TorrentRam(meta.pieces, Ram.PeerLimitForBudget(cfg.ramBudget)), cfg) == Some(op.value.displaced))
  {
    var here := Here(listing, path);
    var need, ram := SizeNeeded(meta.size), Price(cfg, meta.pieces);
    var ts := Displaceable(here, c.seeders, need, ram, cfg);
    if ts.Some? {
      ChoiceIsShortestPayingPrefix(here, c.seeders, need, ram, cfg, ts.value);
      MarginIsTheFilter(ts.value, c.seeders, cfg.minSeedMargin);
      SameSums(ts.value, (t: Torrent) => env.onDisk(t.hash), OnDiskOf(env));
      OnDiskIs(ts.value, env);
    }
  }

  function OnDiskOf(env: Env): Torrent -> nat {
    (t: Torrent) => env.onDisk(t.hash)
  }

  lemma {:induction false} OnDiskIs(ts: seq<Torrent>, env: Env)
    ensures OnDisk(ts, env) == SumSeq(ts, OnDiskOf(env))
  {
    SameSums(ts, (t: Torrent) => env.onDisk(t.hash), OnDiskOf(env));
  }

  predicate Ascends(paths: seq<Path>) {
    forall i, j :: 0 <= i < j < |paths| ==> paths[i] < paths[j]
  }

  predicate HoldsSomething(listing: seq<Torrent>, path: Path) {
    exists i :: 0 <= i < |listing| && listing[i].location == path
  }

  lemma {:induction false} InsertedPath(p: Path, paths: seq<Path>)
    requires Ascends(paths)
    ensures Ascends(InsertPath(p, paths))
    ensures forall q :: q in InsertPath(p, paths) <==> q == p || q in paths
  {
    if paths != [] && p > paths[0] {
      var rest := InsertPath(p, paths[1..]);
      InsertedPath(p, paths[1..]);
      forall j | 0 <= j < |rest| ensures paths[0] < rest[j] {
        assert rest[j] in rest;
      }
      assert paths == [paths[0]] + paths[1..];
    }
  }

  /** The locations tried are those holding something, each once, in path order. */
  lemma {:induction false} PathsAre(listing: seq<Torrent>)
    ensures Ascends(Paths(listing))
    ensures forall q :: q in Paths(listing) <==> HoldsSomething(listing, q)
  {
    if listing != [] {
      var front, last := listing[..|listing| - 1], listing[|listing| - 1];
      PathsAre(front);
      InsertedPath(last.location, Paths(front));
      forall q ensures HoldsSomething(listing, q) <==> q == last.location || HoldsSomething(front, q) {
        if HoldsSomething(front, q) {
          var i :| 0 <= i < |front| && front[i].location == q;
          assert listing[i].location == q;
        }
        if HoldsSomething(listing, q) {
          var i :| 0 <= i < |listing| && listing[i].location == q;
          assert i < |front| ==> front[i].location == q;
        }
        assert listing[|listing| - 1].location == last.location;
      }
    }
  }

  lemma {:induction false} FirstPayingOf(cfg: Config, listing: seq<Torrent>, paths: seq<Path>, c: Candidate, meta: Meta, floor: nat, roll: real, env: Env)
    requires c.seeders >= 1 && roll < Selector.SelectionChance(cfg.aggressiveness, c.seeders, floor)
    ensures var op := SwapFrom(cfg, listing, paths, c, meta, floor, roll, env);
            && (op.None? <==> forall i :: 0 <= i < |paths| ==> !Pays(cfg, listing, paths[i], c, meta, env))
            && (op.Some? ==> op.value.Enter? && exists i :: FirstToPay(cfg, listing, paths, c, meta, env, i) && paths[i] == op.value.t.location)
            && (op.Some? ==> TakesTheChoice(cfg, listing, c, meta, op.value))
  {
    if paths != [] {
      SwapsExactlyWherePaid(cfg, listing, paths[0], c, meta, floor, roll, env);
      FirstPayingOf(cfg, listing, paths[1..], c, meta, floor, roll, env);
      var op := SwapFrom(cfg, listing, paths, c, meta, floor, roll, env);
      if Pays(cfg, listing, paths[0], c, meta, env) {
        assert FirstToPay(cfg, listing, paths, c, meta, env, 0);
      } else if op.Some? {
        var i :| FirstToPay(cfg, listing, paths[1..], c, meta, env, i) && paths[1..][i] == op.value.t.location;
        forall j | 0 <= j < i + 1 ensures !Pays(cfg, listing, paths[j], c, meta, env) {
          assert j > 0 ==> paths[j] == paths[1..][j - 1];
        }
        assert FirstToPay(cfg, listing, paths, c, meta, env, i + 1);
      } else {
        forall j | 0 <= j < |paths| ensures !Pays(cfg, listing, paths[j], c, meta, env) {
          assert j > 0 ==> paths[j] == paths[1..][j - 1];
        }
      }
    }
  }

  /** What is displaced is the location's own greedy choice for the candidate's two needs. */
  ghost predicate TakesTheChoice(cfg: Config, listing: seq<Torrent>, c: Candidate, meta: Meta, op: Op) {
    op.Enter? && Displaceable(Here(listing, op.t.location), c.seeders, Footprint64(meta.size),
                              Ram.TorrentRam(meta.pieces, Ram.PeerLimitForBudget(cfg.ramBudget)), cfg) == Some(op.displaced)
  }

  ghost predicate FirstToPay(cfg: Config, listing: seq<Torrent>, paths: seq<Path>, c: Candidate, meta: Meta, env: Env, i: int) {
    && 0 <= i < |paths|
    && Pays(cfg, listing, paths[i], c, meta, env)
    && forall j :: 0 <= j < i ==> !Pays(cfg, listing, paths[j], c, meta, env)
  }

  /**
   * Once its roll is won, a candidate swaps in exactly when some location that holds something can pay, and then at
   * the first of them in path order.
   */
  lemma SwapsAtFirstPaying(cfg: Config, listing: seq<Torrent>, c: Candidate, meta: Meta, floor: nat, roll: real, env: Env)
    requires c.seeders >= 1 && roll < Selector.SelectionChance(cfg.aggressiveness, c.seeders, floor)
    ensures var op := SwapFrom(cfg, listing, Paths(listing), c, meta, floor, roll, env);
            && (op.Some? <==> exists t :: t in listing && Pays(cfg, listing, t.location, c, meta, env))
            && (op.Some? ==>
                  && op.value.Enter? && Pays(cfg, listing, op.value.t.location, c, meta, env)
                  && TakesTheChoice(cfg, listing, c, meta, op.value)
                  && forall t :: t in listing && t.location < op.value.t.location ==> !Pays(cfg, listing, t.location, c, meta, env))
  {
    var paths := Paths(listing);
    var op := SwapFrom(cfg, listing, paths, c, meta, floor, roll, env);
    FirstPayingOf(cfg, listing, paths, c, meta, floor, roll, env);
    if op.Some? {
      var i :| FirstToPay(cfg, listing, paths, c, meta, env, i) && paths[i] == op.value.t.location;
      var t := TorrentAt(listing, paths[i]);
      assert t in listing && Pays(cfg, listing, t.location, c, meta, env);
      forall t | t in listing && t.location < op.value.t.location ensures !Pays(cfg, listing, t.location, c, meta, env) {
        EarlierPaysNot(cfg, listing, c, meta, env, i, t);
      }
    } else {
      forall t | t in listing ensures !Pays(cfg, listing, t.location, c, meta, env) {
        var j := PathTried(listing, t);
        assert !Pays(cfg, listing, paths[j], c, meta, env);
      }
    }
  }

  lemma EarlierPaysNot(cfg: Config, listing: seq<Torrent>, c: Candidate, meta: Meta, env: Env, i: int, t: Torrent)
    requires FirstToPay(cfg, listing, Paths(listing), c, meta, env, i) && t in listing && t.location < Paths(listing)[i]
    ensures !Pays(cfg, listing, t.location, c, meta, env)
  {
    var j := PathTried(listing, t);
    PathsAre(listing);
  }

  lemma PathTried(listing: seq<Torrent>, t: Torrent) returns (j: nat)
    requires t in listing
    ensures j < |Paths(listing)| && Paths(listing)[j] == t.location
  {
    PathsAre(listing);
    var k :| 0 <= k < |listing| && listing[k] == t;
    assert listing[k].location == t.location;
    assert HoldsSomething(listing, t.location);
    j :| 0 <= j < |Paths(listing)| && Paths(listing)[j] == t.location;
  }

  lemma TorrentAt(listing: seq<Torrent>, path: Path) returns (t: Torrent)
    requires path in Paths(listing)
    ensures t in listing && t.location == path
  {
    PathsAre(listing);
    var k :| 0 <= k < |listing| && listing[k].location == path;
    t := listing[k];
  }
}
