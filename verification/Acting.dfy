/**
 * What the engine decides for one candidate, and for a whole scan's arrivals: the quarantine gate, the
 * admission checks, the fill, the swap, and the windows in which candidates are acted on.
 */
module Acting {
  import opened Words
  import opened Sorting
  import opened Holdings
  import opened Displacement
  import Ram
  import Selector

  type Candidate = Selector.Candidate

  // ---- what the world answers while one candidate is acted on ----

  /** The count and the length come from the same validated piece lengths, so there is at least one piece. */
  datatype Meta = Meta(size: nat, pieces: nat, files: nat)

  /** `None` metadata is a failed fetch, `None` headroom or device space an unreadable one. `listing` is the map's iteration order. */
  datatype Env = Env(
    now: int, meta: Option<Meta>, fdHeadroom: Option<nat>, roll: real, locationRoll: real,
    fillFree: Path -> Option<nat>, swapFree: Path -> Option<nat>, onDisk: Hash -> nat,
    fillAdd: bool, swapAdd: Path -> bool, listing: map<Hash, Torrent> -> seq<Torrent>)

  ghost predicate Lists(ts: seq<Torrent>, held: map<Hash, Torrent>) {
    Drawn(ts, held) && HashSet(ts) == held.Keys
  }

  ghost predicate Honest(env: Env) {
    && 0.0 <= env.roll < 1.0
    && 0.0 <= env.locationRoll < 1.0
    && (env.meta.Some? ==> env.meta.value.size <= U64_MAX && env.meta.value.pieces >= 1)
    && (forall held :: Keyed(held) ==> Lists(env.listing(held), held))
  }

  /** Some order in which a held set can be walked. */
  ghost function Enumerated(held: map<Hash, Torrent>): seq<Torrent>
    decreases |held|
  {
    if held == map[] then []
    else
      var h :| h in held;
      FewerLeft(held, h);
      Enumerated(held - {h}) + [held[h]]
  }

  lemma FewerLeft(held: map<Hash, Torrent>, h: Hash)
    requires h in held
    ensures |held - {h}| < |held| && (held - {h}).Keys == held.Keys - {h}
  {
    assert (held - {h}).Keys == held.Keys - {h};
  }

  lemma {:induction false} DrawnFromMore(ts: seq<Torrent>, part: map<Hash, Torrent>, held: map<Hash, Torrent>)
    requires Drawn(ts, part) && forall h :: h in part ==> h in held && held[h] == part[h]
    ensures Drawn(ts, held)
  {
    if ts != [] {
      DrawnFromMore(ts[..|ts| - 1], part, held);
    }
  }

  /** Every held set has a listing, so there are worlds that answer honestly. */
  lemma {:induction false} HeldSetsCanBeListed(held: map<Hash, Torrent>)
    requires Keyed(held)
    ensures Lists(Enumerated(held), held)
    decreases |held|
  {
    if held != map[] {
      var ts := Enumerated(held);
      var h :| h in held && ts == Enumerated(held - {h}) + [held[h]];
      FewerLeft(held, h);
      HeldSetsCanBeListed(held - {h});
      DrawnFromMore(Enumerated(held - {h}), held - {h}, held);
      assert ts[..|ts| - 1] == Enumerated(held - {h});
      assert held.Keys == (held.Keys - {h}) + {h};
    }
  }

  // ---- admission ----

  datatype Gate = Open | Probe | Shut

  /** `quarantine_gate`: an active entry shuts the hash out, a lapsed one lets it through as a probe. */
  function GateOf(b: Books, h: Hash, now: int): Gate {
    if h !in b.quarantined then Open
    else if now >= b.quarantined[h].cooldownUntil then Probe
    else Shut
  }

  const SOCKET_RESERVE: nat := 512

  function FitsInHeadroom(files: nat, headroom: Option<nat>): bool {
    headroom.Some? ==> SatAdd64(files, SOCKET_RESERVE) <= headroom.value
  }

  function Price(cfg: Config, pieces: nat): (ram: nat)
    ensures 0 < ram <= U64_MAX
  {
    Ram.TorrentRam(pieces, Ram.PeerLimitForBudget(cfg.ramBudget))
  }

  ghost function RamHeadroom(cfg: Config, held: map<Hash, Torrent>): nat {
    SatSub(cfg.ramBudget, RamUsed(held, cfg))
  }

  ghost function FreeAt(held: map<Hash, Torrent>, loc: Location, env: Env): nat {
    var free := SatSub(loc.limit, DiskUsed(held, loc.path));
    match env.fillFree(loc.path)
    case Some(device) => Min(free, device)
    case None => free
  }

  ghost function FreeList(storage: seq<Location>, held: map<Hash, Torrent>, env: Env): (free: seq<nat>)
    ensures |free| == |storage| && forall i :: 0 <= i < |storage| ==> free[i] == FreeAt(held, storage[i], env)
  {
    seq(|storage|, i requires 0 <= i < |storage| => FreeAt(held, storage[i], env))
  }

  function NeedList(storage: seq<Location>, size: nat): (need: seq<nat>)
    ensures |need| == |storage| && forall i :: 0 <= i < |storage| ==> need[i] == SizeNeeded(size)
  {
    seq(|storage|, i => SizeNeeded(size))
  }

  // ---- placement ----

  datatype Placement = Placement(op: Option<Op>, decision: Selector.SwapDecision)

  function Untried(): Placement {
    Placement(None, Selector.SwapDecision(false, 0.0, 0.0, Selector.NotEvaluated))
  }

  function Newcomer(c: Candidate, meta: Meta, path: Path, now: int): Torrent {
    Torrent(c.hash, meta.size, path, meta.pieces, c.seeders, now, 0, Some(now), Some(now))
  }

  /** `try_add`. */
  function TryAdd(cfg: Config, c: Candidate, meta: Meta, path: Path, displaced: seq<Torrent>, floor: nat,
                  roll: real, added: bool, now: int): Placement
  {
    var d := Selector.EvaluateSwap(c.seeders, floor, SeedersOf(displaced), cfg.minSeedMargin, cfg.aggressiveness, roll);
    if d.shouldSwap && added then
      Placement(Some(Enter(Newcomer(c, meta, path, now), if displaced == [] then Fill else Swap,
                           d.chance, d.roll, floor, displaced, now)), d)
    else Placement(None, d)
  }

  /** The free-space half of `act_on_candidate`. */
  ghost function TryFill(cfg: Config, b: Books, count: nat, c: Candidate, meta: Meta, floor: nat, roll: real, env: Env): Placement {
    if count >= cfg.maxTorrents || Price(cfg, meta.pieces) > RamHeadroom(cfg, b.held) then Untried()
    else match Selector.LocationChoice(FreeList(cfg.storage, b.held, env), NeedList(cfg.storage, meta.size), env.locationRoll)
      case Some(i) => TryAdd(cfg, c, meta, cfg.storage[i].path, [], floor, roll, env.fillAdd, env.now)
      case None => Untried()
  }

  function Here(ts: seq<Torrent>, path: Path): seq<Torrent> {
    Filter(ts, (t: Torrent) => t.location == path)
  }

  function OnDisk(ts: seq<Torrent>, env: Env): nat {
    SumSeq(ts, (t: Torrent) => env.onDisk(t.hash))
  }

  /** `device_gate_reason`: an unreadable device admits. */
  predicate DeviceTooFull(deviceFree: Option<nat>, freed: nat, need: nat) {
    deviceFree.Some? && SatAdd64(deviceFree.value, freed) < need
  }

  /** One location of `try_swap`. */
  function SwapAt(cfg: Config, listing: seq<Torrent>, path: Path, c: Candidate, meta: Meta, floor: nat, roll: real, env: Env): Option<Op> {
    match Displaceable(Here(listing, path), c.seeders, SizeNeeded(meta.size), Price(cfg, meta.pieces), cfg)
    case None => None
    case Some(ts) =>
      if DeviceTooFull(env.swapFree(path), OnDisk(ts, env), SizeNeeded(meta.size)) then None
      else TryAdd(cfg, c, meta, path, ts, floor, roll, env.swapAdd(path), env.now).op
  }

  function SwapFrom(cfg: Config, listing: seq<Torrent>, paths: seq<Path>, c: Candidate, meta: Meta, floor: nat, roll: real, env: Env): Option<Op> {
    if paths == [] then None
    else match SwapAt(cfg, listing, paths[0], c, meta, floor, roll, env)
      case Some(op) => Some(op)
      case None => SwapFrom(cfg, listing, paths[1..], c, meta, floor, roll, env)
  }

  function InsertPath(p: Path, paths: seq<Path>): seq<Path> {
    if paths == [] || p < paths[0] then [p] + paths
    else if p == paths[0] then paths
    else [paths[0]] + InsertPath(p, paths[1..])
  }

  /** The locations holding something, in path order. */
  function Paths(ts: seq<Torrent>): seq<Path> {
    if ts == [] then [] else InsertPath(ts[|ts| - 1].location, Paths(ts[..|ts| - 1]))
  }

  function RollFor(gate: Gate, env: Env): real {
    if gate == Probe then -1.0 else env.roll
  }

  /** A fill goes before a swap; a probe never swaps; `early` keeps the early return after a lost roll. */
  function FirstOf(fill: Placement, swap: Option<Op>, probe: bool, early: bool): Option<Op> {
    if fill.op.Some? then fill.op
    else if (early && fill.decision.SeedScarcityBlocked()) || probe then None
    else swap
  }

  /** The swap half of `act_on_candidate`, over every location that holds something. */
  function TrySwap(cfg: Config, b: Books, c: Candidate, meta: Meta, floor: nat, roll: real, env: Env): Option<Op> {
    var listing := env.listing(b.held);
    SwapFrom(cfg, listing, Paths(listing), c, meta, floor, roll, env)
  }

  ghost function Place(cfg: Config, b: Books, count: nat, c: Candidate, meta: Meta, floor: nat, probe: bool, env: Env, early: bool): Option<Op> {
    var roll := if probe then -1.0 else env.roll;
    FirstOf(TryFill(cfg, b, count, c, meta, floor, roll, env), TrySwap(cfg, b, c, meta, floor, roll, env), probe, early)
  }

  /** `act_on_candidate`. */
  ghost function Decide(cfg: Config, b: Books, count: nat, c: Candidate, floor: nat, env: Env, early: bool): Option<Op> {
    var gate := GateOf(b, c.hash, env.now);
    if gate == Shut || env.meta.None? || !FitsInHeadroom(env.meta.value.files, env.fdHeadroom) then None
    else Place(cfg, b, count, c, env.meta.value, floor, gate == Probe, env, early)
  }

  function Applied(cfg: Config, b: Books, op: Option<Op>): Books {
    if op.Some? then Apply(cfg, b, op.value) else b
  }

  function CountAfter(count: nat, op: Option<Op>): nat {
    if op.None? || !op.value.Enter? then count
    else if op.value.displaced == [] then count + 1
    else SatSub(count + 1, |op.value.displaced|)
  }

  lemma PlacedByFill(cfg: Config, b: Books, count: nat, c: Candidate, meta: Meta, floor: nat, probe: bool, env: Env)
    requires TryFill(cfg, b, count, c, meta, floor, if probe then -1.0 else env.roll, env).op.Some?
    ensures var fill := TryFill(cfg, b, count, c, meta, floor, if probe then -1.0 else env.roll, env);
            var op := Place(cfg, b, count, c, meta, floor, probe, env, true);
            op == fill.op && CountAfter(count, op) == count + 1
  {
  }

  lemma PlacedNowhere(cfg: Config, b: Books, count: nat, c: Candidate, meta: Meta, floor: nat, probe: bool, env: Env)
    requires var fill := TryFill(cfg, b, count, c, meta, floor, if probe then -1.0 else env.roll, env);
             fill.op.None? && (fill.decision.SeedScarcityBlocked() || probe)
    ensures Place(cfg, b, count, c, meta, floor, probe, env, true) == None
  {
  }

  lemma PlacedBySwap(cfg: Config, b: Books, count: nat, c: Candidate, meta: Meta, floor: nat, env: Env)
    requires var fill := TryFill(cfg, b, count, c, meta, floor, env.roll, env);
             fill.op.None? && !fill.decision.SeedScarcityBlocked()
    ensures Place(cfg, b, count, c, meta, floor, false, env, true) == TrySwap(cfg, b, c, meta, floor, env.roll, env)
  {
  }

  lemma SwapCounts(count: nat, op: Op)
    requires op.Enter? && op.displaced != []
    ensures CountAfter(count, Some(op)) == SatSub(count + 1, |op.displaced|)
  {
  }

  // ---- every decision is lawful ----

  lemma {:induction false} LimitAt(storage: seq<Location>, i: nat)
    requires i < |storage|
    requires forall j, k :: 0 <= j < k < |storage| ==> storage[j].path != storage[k].path
    ensures LimitFrom(storage, storage[i].path) == storage[i].limit
  {
    if i > 0 {
      LimitAt(storage[1..], i - 1);
    }
  }

  ghost predicate FillIsLawfulEntry(cfg: Config, b: Books, op: Op, c: Candidate, meta: Meta, floor: nat, roll: real, env: Env) {
    && op.Enter? && op.displaced == [] && op.cause == Fill && op.t == Newcomer(c, meta, op.t.location, env.now)
    && op.at == env.now && op.roll == roll && op.seederFloor == floor
    && RoomToFill(cfg, b, op.t) && RollWins(cfg, op)
  }

  lemma FillIsLawful(cfg: Config, b: Books, count: nat, c: Candidate, meta: Meta, floor: nat, roll: real, env: Env)
    requires ValidConfig(cfg) && |b.held| <= count
    ensures var fill := TryFill(cfg, b, count, c, meta, floor, roll, env);
            fill.op.Some? ==> FillIsLawfulEntry(cfg, b, fill.op.value, c, meta, floor, roll, env)
  {
    var fill := TryFill(cfg, b, count, c, meta, floor, roll, env);
    if fill.op.Some? {
      var free, need := FreeList(cfg.storage, b.held, env), NeedList(cfg.storage, meta.size);
      var i := Selector.LocationChoice(free, need, env.locationRoll).value;
      LimitAt(cfg.storage, i);
    }
  }

  /** The roll that let a candidate in was below its chance, and it had a live seed. */
  predicate RollWins(cfg: Config, op: Op)
    requires op.Enter?
  {
    && op.t.seeders >= 1
    && op.chance == Selector.SelectionChance(cfg.aggressiveness, op.t.seeders, op.seederFloor)
    && op.roll < op.chance
  }

  lemma HereIsDrawn(listing: seq<Torrent>, path: Path, held: map<Hash, Torrent>)
    requires Drawn(listing, held)
    ensures Drawn(Here(listing, path), held)
    ensures forall t :: t in Here(listing, path) <==> t in listing && t.location == path
  {
    FilterDrawn(listing, (t: Torrent) => t.location == path, held);
  }

  lemma ChosenPays(cfg: Config, b: Books, listing: seq<Torrent>, t: Torrent, ts: seq<Torrent>)
    requires Drawn(listing, b.held)
    requires Displaceable(Here(listing, t.location), t.seeders, SizeNeeded(t.size), Price(cfg, t.pieces), cfg) == Some(ts)
    ensures PaysForSwap(cfg, b, t, ts)
  {
    var here := Here(listing, t.location);
    var need, ram := SizeNeeded(t.size), Price(cfg, t.pieces);
    HereIsDrawn(listing, t.location, b.held);
    ChoiceIsShortestPayingPrefix(here, t.seeders, need, ram, cfg, ts);
    ChoiceIsDrawn(here, t.seeders, need, ram, cfg, ts, b.held);
    forall i | 0 <= i < |ts| ensures ts[i].location == t.location && ts[i].seeders - cfg.minSeedMargin >= t.seeders {
      assert ts[i] in ts;
    }
  }

  lemma AddedWins(cfg: Config, c: Candidate, meta: Meta, path: Path, displaced: seq<Torrent>, floor: nat, roll: real, added: bool, now: int)
    ensures var op := TryAdd(cfg, c, meta, path, displaced, floor, roll, added, now).op;
            op.Some? ==> op.value.Enter? && op.value.t == Newcomer(c, meta, path, now) && op.value.displaced == displaced
                         && op.value.at == now && op.value.roll == roll && op.value.seederFloor == floor && RollWins(cfg, op.value)
  {
  }

  lemma SwapAtIsLawful(cfg: Config, b: Books, listing: seq<Torrent>, path: Path, c: Candidate, meta: Meta, floor: nat, roll: real, env: Env)
    requires Drawn(listing, b.held)
    ensures var op := SwapAt(cfg, listing, path, c, meta, floor, roll, env);
            op.Some? ==> SwapIsLawfulEntry(cfg, b, op.value, c, meta, floor, roll, env)
  {
    var need, ram := SizeNeeded(meta.size), Price(cfg, meta.pieces);
    var chosen := Displaceable(Here(listing, path), c.seeders, need, ram, cfg);
    if chosen.Some? {
      ChosenPays(cfg, b, listing, Newcomer(c, meta, path, env.now), chosen.value);
      AddedWins(cfg, c, meta, path, chosen.value, floor, roll, env.swapAdd(path), env.now);
    }
  }

  ghost predicate SwapIsLawfulEntry(cfg: Config, b: Books, op: Op, c: Candidate, meta: Meta, floor: nat, roll: real, env: Env) {
    && op.Enter? && op.cause == Swap && op.t == Newcomer(c, meta, op.t.location, env.now)
    && op.at == env.now && op.roll == roll && op.seederFloor == floor
    && PaysForSwap(cfg, b, op.t, op.displaced) && RollWins(cfg, op)
  }

  lemma {:induction false} SwapFromIsLawful(cfg: Config, b: Books, listing: seq<Torrent>, paths: seq<Path>, c: Candidate, meta: Meta, floor: nat, roll: real, env: Env)
    requires Drawn(listing, b.held)
    ensures var op := SwapFrom(cfg, listing, paths, c, meta, floor, roll, env);
            op.Some? ==> SwapIsLawfulEntry(cfg, b, op.value, c, meta, floor, roll, env)
  {
    if paths != [] {
      SwapAtIsLawful(cfg, b, listing, paths[0], c, meta, floor, roll, env);
      SwapFromIsLawful(cfg, b, listing, paths[1..], c, meta, floor, roll, env);
    }
  }

  lemma EntryKeepsCount(b: Books, t: Torrent, displaced: seq<Torrent>, count: nat)
    requires |b.held| <= count && Drawn(displaced, b.held)
    ensures |b.held[t.hash := t] - HashSet(displaced)| <= if displaced == [] then count + 1 else SatSub(count + 1, |displaced|)
  {
    CountExchange(b.held, t, displaced);
  }

  /** The entry decided for a candidate: as the world described it, lawful, and counted. */
  ghost predicate SoundEntry(cfg: Config, b: Books, count: nat, c: Candidate, floor: nat, env: Env, op: Op) {
    && op.Enter? && op.at == env.now && env.meta.Some?
    && op.t == Newcomer(c, env.meta.value, op.t.location, env.now)
    && op.roll == RollFor(GateOf(b, c.hash, env.now), env)
    && op.seederFloor == floor
    && Lawful(cfg, b, op)
    && |Apply(cfg, b, op).held| <= CountAfter(count, Some(op))
  }

  lemma FillEntryIsLawful(cfg: Config, b: Books, op: Op, c: Candidate, env: Env)
    requires GateOf(b, c.hash, env.now) != Shut && Honest(env)
    requires op.Enter? && op.displaced == [] && op.t.hash == c.hash && op.t.confirmedAt == Some(op.at) && op.at == env.now
    requires op.roll == RollFor(GateOf(b, c.hash, env.now), env)
    requires op.t.pieces >= 1 && op.t.size <= U64_MAX && RollWins(cfg, op) && RoomToFill(cfg, b, op.t)
    ensures Lawful(cfg, b, op)
  {
  }

  lemma SwapEntryIsLawful(cfg: Config, b: Books, op: Op, c: Candidate, env: Env)
    requires GateOf(b, c.hash, env.now) == Open && Honest(env)
    requires op.Enter? && op.t.hash == c.hash && op.t.confirmedAt == Some(op.at) && op.at == env.now && op.roll == env.roll
    requires op.t.pieces >= 1 && op.t.size <= U64_MAX && RollWins(cfg, op) && PaysForSwap(cfg, b, op.t, op.displaced)
    ensures Lawful(cfg, b, op)
  {
  }

  lemma FillEntryIsSound(cfg: Config, b: Books, count: nat, c: Candidate, floor: nat, env: Env, op: Op)
    requires Honest(env) && |b.held| <= count && env.meta.Some? && GateOf(b, c.hash, env.now) != Shut
    requires FillIsLawfulEntry(cfg, b, op, c, env.meta.value, floor, RollFor(GateOf(b, c.hash, env.now), env), env)
    ensures SoundEntry(cfg, b, count, c, floor, env, op)
  {
    EntryKeepsCount(b, op.t, [], count);
    FillEntryIsLawful(cfg, b, op, c, env);
  }

  lemma SwapEntryIsSound(cfg: Config, b: Books, count: nat, c: Candidate, floor: nat, env: Env, op: Op)
    requires Honest(env) && |b.held| <= count && env.meta.Some? && GateOf(b, c.hash, env.now) == Open
    requires SwapIsLawfulEntry(cfg, b, op, c, env.meta.value, floor, env.roll, env)
    ensures SoundEntry(cfg, b, count, c, floor, env, op)
  {
    EntryKeepsCount(b, op.t, op.displaced, count);
    SwapEntryIsLawful(cfg, b, op, c, env);
  }

  lemma FillIsSound(cfg: Config, b: Books, count: nat, c: Candidate, floor: nat, env: Env)
    requires ValidConfig(cfg) && Honest(env) && |b.held| <= count && env.meta.Some?
    requires GateOf(b, c.hash, env.now) != Shut
    ensures var fill := TryFill(cfg, b, count, c, env.meta.value, floor, RollFor(GateOf(b, c.hash, env.now), env), env);
            fill.op.Some? ==> SoundEntry(cfg, b, count, c, floor, env, fill.op.value)
  {
    var roll := RollFor(GateOf(b, c.hash, env.now), env);
    var fill := TryFill(cfg, b, count, c, env.meta.value, floor, roll, env);
    FillIsLawful(cfg, b, count, c, env.meta.value, floor, roll, env);
    if fill.op.Some? {
      FillEntryIsSound(cfg, b, count, c, floor, env, fill.op.value);
    }
  }

  lemma SwapIsSound(cfg: Config, b: Books, count: nat, c: Candidate, floor: nat, env: Env)
    requires Honest(env) && Keyed(b.held) && |b.held| <= count && env.meta.Some?
    requires GateOf(b, c.hash, env.now) == Open
    ensures var op := TrySwap(cfg, b, c, env.meta.value, floor, env.roll, env);
            op.Some? ==> SoundEntry(cfg, b, count, c, floor, env, op.value)
  {
    var listing := env.listing(b.held);
    assert Lists(listing, b.held);
    var op := SwapFrom(cfg, listing, Paths(listing), c, env.meta.value, floor, env.roll, env);
    SwapFromIsLawful(cfg, b, listing, Paths(listing), c, env.meta.value, floor, env.roll, env);
    if op.Some? {
      SwapEntryIsSound(cfg, b, count, c, floor, env, op.value);
    }
  }

  /**
   * Whatever the world answers, what is decided for a candidate is nothing or one lawful entry: a live
   * seed, one roll below the chance, no active cooldown, a probe into free space only, room or a full
   * payment. The running count stays an upper bound of the held count.
   */
  lemma DecisionIsLawful(cfg: Config, b: Books, count: nat, c: Candidate, floor: nat, env: Env, early: bool)
    requires ValidConfig(cfg) && Keyed(b.held) && Honest(env) && |b.held| <= count
    ensures var op := Decide(cfg, b, count, c, floor, env, early);
            op.Some? ==> SoundEntry(cfg, b, count, c, floor, env, op.value)
  {
    if Decide(cfg, b, count, c, floor, env, early).Some? {
      DecisionComesFrom(cfg, b, count, c, floor, env, early);
      FillIsSound(cfg, b, count, c, floor, env);
      if GateOf(b, c.hash, env.now) == Open {
        SwapIsSound(cfg, b, count, c, floor, env);
      }
    }
  }

  /** What is decided is the fill or, the gate being open, the swap. */
  lemma DecisionComesFrom(cfg: Config, b: Books, count: nat, c: Candidate, floor: nat, env: Env, early: bool)
    ensures var op := Decide(cfg, b, count, c, floor, env, early);
            var gate := GateOf(b, c.hash, env.now);
            op.Some? ==>
              && env.meta.Some? && gate != Shut
              && (|| op == TryFill(cfg, b, count, c, env.meta.value, floor, RollFor(gate, env), env).op
                  || (gate == Open && op == TrySwap(cfg, b, c, env.meta.value, floor, env.roll, env)))
  {
  }

  /** For a candidate not already held, a running count that was exact stays exact. */
  lemma CountStaysExact(cfg: Config, b: Books, count: nat, c: Candidate, floor: nat, env: Env)
    requires ValidConfig(cfg) && Keyed(b.held) && Honest(env) && count == |b.held| && c.hash !in b.held
    ensures var op := Decide(cfg, b, count, c, floor, env, true);
            op.Some? ==> |Apply(cfg, b, op.value).held| == CountAfter(count, op)
  {
    DecisionIsLawful(cfg, b, count, c, floor, env, true);
    var op := Decide(cfg, b, count, c, floor, env, true);
    if op.Some? {
      LawfulEntryCounts(cfg, b, op.value);
    }
  }

  lemma LawfulEntryCounts(cfg: Config, b: Books, op: Op)
    requires op.Enter? && Lawful(cfg, b, op) && op.t.hash !in b.held
    ensures |Apply(cfg, b, op).held| == CountAfter(|b.held|, Some(op))
  {
    EntryIsDrawn(cfg, b, op);
    DrawnIsHeld(op.displaced, b.held);
    CountExchange(b.held, op.t, op.displaced);
  }

  lemma EntryIsDrawn(cfg: Config, b: Books, op: Op)
    requires op.Enter? && Lawful(cfg, b, op)
    ensures Drawn(op.displaced, b.held)
  {
  }

  lemma {:induction false} DrawnIsHeld(ts: seq<Torrent>, held: map<Hash, Torrent>)
    requires Drawn(ts, held)
    ensures HashSet(ts) <= held.Keys
  {
    if ts != [] {
      DrawnIsHeld(ts[..|ts| - 1], held);
    }
  }

  // ---- one roll ----

  lemma {:induction false} LostRollSwapsNothing(cfg: Config, listing: seq<Torrent>, paths: seq<Path>, c: Candidate, meta: Meta, floor: nat, roll: real, env: Env)
    requires roll >= Selector.SelectionChance(cfg.aggressiveness, c.seeders, floor) || c.seeders < 1
    ensures SwapFrom(cfg, listing, paths, c, meta, floor, roll, env) == None
  {
    if paths != [] {
      LostRollSwapsNothing(cfg, listing, paths[1..], c, meta, floor, roll, env);
    }
  }

  /** A candidate that is not a probe enters only on its single roll, whatever the locations tried or the path taken. */
  lemma LostRollEntersNothing(cfg: Config, b: Books, count: nat, c: Candidate, floor: nat, env: Env, early: bool)
    requires GateOf(b, c.hash, env.now) != Probe
    requires env.roll >= Selector.SelectionChance(cfg.aggressiveness, c.seeders, floor)
    ensures Decide(cfg, b, count, c, floor, env, early) == None
  {
    if env.meta.Some? {
      var listing := env.listing(b.held);
      LostRollSwapsNothing(cfg, listing, Paths(listing), c, env.meta.value, floor, env.roll, env);
    }
  }

  /** The early return after a lost roll changes nothing: the swap path would have entered nothing either. */
  lemma EarlyReturnIsOnlyAFastPath(cfg: Config, b: Books, count: nat, c: Candidate, floor: nat, env: Env)
    ensures Decide(cfg, b, count, c, floor, env, true) == Decide(cfg, b, count, c, floor, env, false)
  {
    if env.meta.Some? {
      var gate := GateOf(b, c.hash, env.now);
      var fill := TryFill(cfg, b, count, c, env.meta.value, floor, RollFor(gate, env), env);
      if fill.decision.SeedScarcityBlocked() && gate == Open {
        LostRollEntersNothing(cfg, b, count, c, floor, env, false);
      }
    }
  }

  /** A location with room exists exactly when the weighted choice finds one. */
  lemma ChoiceFindsRoom(storage: seq<Location>, held: map<Hash, Torrent>, size: nat, env: Env)
    ensures Selector.LocationChoice(FreeList(storage, held, env), NeedList(storage, size), env.locationRoll) == None
            <==> forall i :: 0 <= i < |storage| ==> FreeAt(held, storage[i], env) < SizeNeeded(size)
  {
    var free, need := FreeList(storage, held, env), NeedList(storage, size);
    var eligible := Selector.EligibleFrom(free, need, 0);
    Selector.EligibleSlots(free, need, 0);
    forall i | 0 <= i < |free| ensures eligible == [] ==> free[i] < need[i] {
      assert Selector.EligibleSlot(Selector.Slot(i, free[i]), free, need) <==> free[i] >= need[i];
    }
    if eligible != [] {
      assert eligible[0] in eligible;
      assert free[eligible[0].index] == FreeAt(held, storage[eligible[0].index], env);
    }
  }

  /** The fill was attempted and the session took no part in refusing it: then only the roll or a dead swarm did. */
  lemma RefusedFill(cfg: Config, b: Books, count: nat, c: Candidate, meta: Meta, floor: nat, roll: real, env: Env)
    requires count < cfg.maxTorrents && Price(cfg, meta.pieces) <= RamHeadroom(cfg, b.held) && env.fillAdd
    requires Selector.LocationChoice(FreeList(cfg.storage, b.held, env), NeedList(cfg.storage, meta.size), env.locationRoll) != None
    ensures TryFill(cfg, b, count, c, meta, floor, roll, env).op == None <==>
              roll >= Selector.SelectionChance(cfg.aggressiveness, c.seeders, floor) || c.seeders < 1
  {
  }

  lemma FillDisplacesNothing(cfg: Config, b: Books, count: nat, c: Candidate, meta: Meta, floor: nat, roll: real, env: Env)
    ensures var op := TryFill(cfg, b, count, c, meta, floor, roll, env).op;
            op.Some? ==> op.value.Enter? && op.value.displaced == []
  {
  }

  /**
   * A swap happens only under pressure: at the torrent cap, short of RAM, with no location roomy
   * enough, or because the session refused the fill.
   */
  lemma SwapOnlyUnderPressure(cfg: Config, b: Books, count: nat, c: Candidate, floor: nat, env: Env)
    requires env.meta.Some? && count < cfg.maxTorrents && env.fillAdd
    requires Price(cfg, env.meta.value.pieces) <= RamHeadroom(cfg, b.held)
    requires exists i :: 0 <= i < |cfg.storage| && FreeAt(b.held, cfg.storage[i], env) >= SizeNeeded(env.meta.value.size)
    ensures var op := Decide(cfg, b, count, c, floor, env, true);
            op.Some? ==> op.value.Enter? && op.value.displaced == []
  {
    var gate := GateOf(b, c.hash, env.now);
    var meta := env.meta.value;
    var listing := env.listing(b.held);
    ChoiceFindsRoom(cfg.storage, b.held, meta.size, env);
    RefusedFill(cfg, b, count, c, meta, floor, RollFor(gate, env), env);
    FillDisplacesNothing(cfg, b, count, c, meta, floor, RollFor(gate, env), env);
    if gate == Open && TryFill(cfg, b, count, c, meta, floor, env.roll, env).op.None? {
      LostRollSwapsNothing(cfg, listing, Paths(listing), c, meta, floor, env.roll, env);
    }
  }

  // ---- a whole sequence of candidates ----

  datatype Progress = Progress(books: Books, count: nat, ops: seq<Op>)

  ghost function ActOne(cfg: Config, p: Progress, c: Candidate, floor: nat, env: Env): Progress {
    var op := Decide(cfg, p.books, p.count, c, floor, env, true);
    match op
    case Some(enter) => Progress(Apply(cfg, p.books, enter), CountAfter(p.count, op), p.ops + [enter])
    case None => p
  }

  /** Each hash is acted on at most once a scan, so the world answers by hash. */
  ghost function ActAll(cfg: Config, b: Books, count: nat, cands: seq<Candidate>, floor: nat, world: Hash -> Env): Progress {
    if cands == [] then Progress(b, count, [])
    else
      var c := cands[|cands| - 1];
      ActOne(cfg, ActAll(cfg, b, count, cands[..|cands| - 1], floor, world), c, floor, world(c.hash))
  }

  predicate MeasuredEnv(m: Measure, env: Env) {
    match m
    case Anything => true
    case Sized => env.meta.Some? ==> env.meta.value.size + PER_TORRENT_SIZE_BUFFER <= U64_MAX
    case Since(from) => env.now >= from
  }

  ghost predicate Answers(world: Hash -> Env, m: Measure) {
    forall h :: Honest(world(h)) && MeasuredEnv(m, world(h))
  }

  /** The progress of an acting phase is a lawful run over the books it began with. */
  ghost predicate OnCourse(cfg: Config, b: Books, p: Progress, m: Measure) {
    && p.books == Run(cfg, b, p.ops)
    && LawfulRun(cfg, b, p.ops) && AllMeasured(m, p.ops)
    && |p.books.held| <= p.count
  }

  lemma ActOneStaysOnCourse(cfg: Config, b: Books, p: Progress, c: Candidate, floor: nat, env: Env, m: Measure)
    requires ValidConfig(cfg) && Keyed(b.held) && Honest(env) && MeasuredEnv(m, env) && OnCourse(cfg, b, p, m)
    ensures OnCourse(cfg, b, ActOne(cfg, p, c, floor, env), m)
  {
    RunStaysKeyed(cfg, b, p.ops);
    DecisionIsLawful(cfg, p.books, p.count, c, floor, env, true);
    var op := Decide(cfg, p.books, p.count, c, floor, env, true);
    if op.Some? {
      RunSnoc(cfg, b, p.ops, op.value);
      MeasuredSnoc(m, p.ops, op.value);
    }
  }

  lemma {:induction false} ActAllStaysOnCourse(cfg: Config, b: Books, count: nat, cands: seq<Candidate>, floor: nat, world: Hash -> Env, m: Measure)
    requires ValidConfig(cfg) && Keyed(b.held) && Answers(world, m) && |b.held| <= count
    ensures OnCourse(cfg, b, ActAll(cfg, b, count, cands, floor, world), m)
  {
    if cands != [] {
      var before, c := cands[..|cands| - 1], cands[|cands| - 1];
      ActAllStaysOnCourse(cfg, b, count, before, floor, world, m);
      ActOneStaysOnCourse(cfg, b, ActAll(cfg, b, count, before, floor, world), c, floor, world(c.hash), m);
    }
  }

  lemma {:induction false} ActAllConcat(cfg: Config, b: Books, count: nat, xs: seq<Candidate>, c: Candidate, floor: nat, world: Hash -> Env)
    ensures ActAll(cfg, b, count, xs + [c], floor, world)
         == ActOne(cfg, ActAll(cfg, b, count, xs, floor, world), c, floor, world(c.hash))
  {
    assert (xs + [c])[..|xs|] == xs;
  }

  // ---- windows over the arrivals of a scan ----

  const BATCH: nat := 16

  function CandidateHashes(cands: seq<Candidate>): set<Hash> {
    if cands == [] then {} else CandidateHashes(cands[..|cands| - 1]) + {cands[|cands| - 1].hash}
  }

  /** Act on what of a window was not acted on yet, in window order. */
  function ActWindow(done: seq<Candidate>, window: seq<Candidate>): seq<Candidate> {
    if window == [] then done
    else
      var before := ActWindow(done, window[..|window| - 1]);
      var c := window[|window| - 1];
      if c.hash in CandidateHashes(before) then before else before + [c]
  }

  lemma HashesSnoc(cands: seq<Candidate>, c: Candidate)
    ensures CandidateHashes(cands + [c]) == CandidateHashes(cands) + {c.hash}
  {
    assert (cands + [c])[..|cands|] == cands;
  }

  lemma WindowNext(done: seq<Candidate>, window: seq<Candidate>, k: nat)
    requires k < |window|
    ensures var before := ActWindow(done, window[..k]);
            ActWindow(done, window[..k + 1]) == if window[k].hash in CandidateHashes(before) then before else before + [window[k]]
  {
    assert window[..k + 1][..k] == window[..k];
  }

  lemma DuringNext(cfg: Config, arrivals: seq<Candidate>, c: Candidate)
    ensures ActedDuring(cfg, arrivals + [c]) ==
              if |arrivals + [c]| % BATCH == 0 then ActWindow(ActedDuring(cfg, arrivals), TopWindow(cfg, arrivals + [c]))
              else ActedDuring(cfg, arrivals)
  {
    assert (arrivals + [c])[..|arrivals|] == arrivals;
  }

  function TopWindow(cfg: Config, arrivals: seq<Candidate>): seq<Candidate> {
    var ranked := Selector.Ranking(arrivals, cfg.sizeBias, Ram.PeerLimitForBudget(cfg.ramBudget), cfg.power);
    ranked[..Min(cfg.maxTorrents, |ranked|)]
  }

  /** The candidates acted on while `arrivals` came in: a window at every full batch. */
  function ActedDuring(cfg: Config, arrivals: seq<Candidate>): seq<Candidate> {
    if arrivals == [] then []
    else
      var before := ActedDuring(cfg, arrivals[..|arrivals| - 1]);
      if |arrivals| % BATCH == 0 then ActWindow(before, TopWindow(cfg, arrivals)) else before
  }

  /** The candidates acted on by a whole scan: a last window if a batch was left unfinished. */
  function ActedOn(cfg: Config, arrivals: seq<Candidate>): seq<Candidate> {
    var during := ActedDuring(cfg, arrivals);
    if |arrivals| % BATCH != 0 then ActWindow(during, TopWindow(cfg, arrivals)) else during
  }

  ghost predicate HashesDiffer(cands: seq<Candidate>) {
    cands != [] ==>
      HashesDiffer(cands[..|cands| - 1]) && cands[|cands| - 1].hash !in CandidateHashes(cands[..|cands| - 1])
  }

  /** Acted on at most once each, and only available candidates that arrived. */
  ghost predicate ActedFrom(done: seq<Candidate>, arrivals: seq<Candidate>) {
    HashesDiffer(done) && forall c :: c in done ==> c in arrivals && Selector.Available(c)
  }

  lemma {:induction false} WindowActsOnEach(done: seq<Candidate>, window: seq<Candidate>, arrivals: seq<Candidate>)
    requires ActedFrom(done, arrivals)
    requires forall c :: c in window ==> c in arrivals && Selector.Available(c)
    ensures ActedFrom(ActWindow(done, window), arrivals)
    ensures CandidateHashes(ActWindow(done, window)) == CandidateHashes(done) + CandidateHashes(window)
  {
    if window != [] {
      var before, c := window[..|window| - 1], window[|window| - 1];
      assert c in window && forall x :: x in before ==> x in window;
      WindowActsOnEach(done, before, arrivals);
      var acted := ActWindow(done, before);
      HashesSnoc(acted, c);
      if c.hash !in CandidateHashes(acted) {
        ActedSnoc(acted, c, arrivals);
      }
    }
  }

  lemma ActedSnoc(done: seq<Candidate>, c: Candidate, arrivals: seq<Candidate>)
    requires ActedFrom(done, arrivals) && c in arrivals && Selector.Available(c) && c.hash !in CandidateHashes(done)
    ensures ActedFrom(done + [c], arrivals)
  {
    assert (done + [c])[..|done|] == done;
  }

  lemma TopWindowArrived(cfg: Config, arrivals: seq<Candidate>)
    ensures forall c :: c in TopWindow(cfg, arrivals) ==> c in arrivals && Selector.Available(c)
  {
    var order := Selector.RankOrder(cfg.sizeBias, Ram.PeerLimitForBudget(cfg.ramBudget), cfg.power);
    var available := Filter(arrivals, Selector.Available);
    SortMembers(available, order);
    var ranked := Selector.Ranking(arrivals, cfg.sizeBias, Ram.PeerLimitForBudget(cfg.ramBudget), cfg.power);
    forall c | c in TopWindow(cfg, arrivals) ensures c in arrivals && Selector.Available(c) {
      assert c in ranked;
      assert c in available;
    }
  }

  lemma {:induction false} BatchesActOnce(cfg: Config, arrivals: seq<Candidate>)
    ensures ActedFrom(ActedDuring(cfg, arrivals), arrivals)
  {
    if arrivals != [] {
      var before := arrivals[..|arrivals| - 1];
      BatchesActOnce(cfg, before);
      assert forall c :: c in before ==> c in arrivals;
      TopWindowArrived(cfg, arrivals);
      WindowActsOnEach(ActedDuring(cfg, before), TopWindow(cfg, arrivals), arrivals);
    }
  }

  /**
   * For every arrival order and batch boundary, a finished scan acted on no hash twice, on nothing that
   * did not arrive, and on every candidate in the top window of the final ranking of all arrivals.
   */
  lemma ScanCoversTopWindow(cfg: Config, arrivals: seq<Candidate>)
    ensures ActedFrom(ActedOn(cfg, arrivals), arrivals)
    ensures CandidateHashes(TopWindow(cfg, arrivals)) <= CandidateHashes(ActedOn(cfg, arrivals))
  {
    BatchesActOnce(cfg, arrivals);
    TopWindowArrived(cfg, arrivals);
    if arrivals == [] {
      assert TopWindow(cfg, arrivals) == [];
    } else if |arrivals| % BATCH != 0 {
      WindowActsOnEach(ActedDuring(cfg, arrivals), TopWindow(cfg, arrivals), arrivals);
    } else {
      var before := arrivals[..|arrivals| - 1];
      BatchesActOnce(cfg, before);
      assert forall c :: c in before ==> c in arrivals;
      WindowActsOnEach(ActedDuring(cfg, before), TopWindow(cfg, arrivals), arrivals);
    }
  }
}
