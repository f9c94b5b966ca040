/**
 * What the daemon holds: the held torrents, the quarantine registry and the ledger, the operations
 * that change them, and what every run of lawful operations keeps.
 */
module Holdings {
  import opened Words
  import opened Quarantines
  import Ram
  import Selector

  /** A storage location, by its rank in path order. */
  type Path = nat

  datatype Torrent = Torrent(
    hash: Hash, size: nat, location: Path, pieces: nat, seeders: nat, addedAt: int,
    completed: nat, progressAt: Option<int>, confirmedAt: Option<int>)

  datatype Cause = Fill | Swap | Stalled | DeletedFromCatalog | Quarantined

  /** A number as it is written down: the digits and the power of ten of a `f64`'s text. */
  datatype Decimal = Decimal(mantissa: int, exponent: int)

  datatype Event =
    | Add(hash: Hash, size: nat, seeders: nat, location: Path, cause: Cause,
          chance: Decimal, roll: Decimal, seederFloor: nat, displaced: seq<Hash>)
    | Remove(hash: Hash, size: nat, seeders: nat, location: Path, cause: Cause)

  datatype Books = Books(held: map<Hash, Torrent>, quarantined: map<Hash, Quarantine>, ledger: seq<Event>)

  datatype Location = Location(path: Path, limit: nat)

  datatype Config = Config(
    storage: seq<Location>, maxTorrents: nat, ramBudget: nat, minSeedMargin: int, aggressiveness: real,
    sizeBias: real, power: Selector.Powf, written: real -> Decimal, collapsePercent: nat, preserveDeleted: bool, vanishedTimeout: nat, stallTimeout: nat,
    checkInterval: nat, cooldown: nat, maxRetries: nat, discardBytes: nat, minWindows: nat)

  /** What `Config::validate` and the startup arithmetic establish. */
  predicate ValidConfig(cfg: Config) {
    && (forall i, j :: 0 <= i < j < |cfg.storage| ==> cfg.storage[i].path != cfg.storage[j].path)
    && (forall i :: 0 <= i < |cfg.storage| ==> cfg.storage[i].limit <= U64_MAX)
    && cfg.ramBudget <= U64_MAX
    && cfg.minSeedMargin >= 0
    && 0.0 < cfg.aggressiveness < 1.0
    && cfg.collapsePercent <= 100
    && cfg.cooldown <= MAX_KNOB_SECONDS
    && cfg.checkInterval <= MAX_KNOB_SECONDS
  }

  const PER_TORRENT_SIZE_BUFFER: nat := 256 * 1024

  function SizeNeeded(nominal: nat): nat {
    SatAdd64(nominal, PER_TORRENT_SIZE_BUFFER)
  }

  // ---- sums over the held set ----

  ghost function Sum(held: map<Hash, Torrent>, f: Torrent -> nat): nat {
    if held == map[] then 0
    else
      var h :| h in held;
      f(held[h]) + Sum(held - {h}, f)
  }

  lemma {:induction false} SumWithout(held: map<Hash, Torrent>, h: Hash, f: Torrent -> nat)
    requires h in held
    ensures Sum(held, f) == f(held[h]) + Sum(held - {h}, f)
    decreases |held|
  {
    var g :| g in held && Sum(held, f) == f(held[g]) + Sum(held - {g}, f);
    if g != h {
      SumWithout(held - {g}, h, f);
      assert held - {g} - {h} == held - {h} - {g};
      SumWithout(held - {h}, g, f);
    }
  }

  lemma SumPut(held: map<Hash, Torrent>, t: Torrent, f: Torrent -> nat)
    ensures Sum(held[t.hash := t], f) == f(t) + Sum(held - {t.hash}, f)
    ensures Sum(held - {t.hash}, f) <= Sum(held, f)
  {
    assert held[t.hash := t] - {t.hash} == held - {t.hash};
    SumWithout(held[t.hash := t], t.hash, f);
    if t.hash in held {
      SumWithout(held, t.hash, f);
    } else {
      assert held - {t.hash} == held;
    }
  }

  function SumSeq(ts: seq<Torrent>, f: Torrent -> nat): nat {
    if ts == [] then 0 else SumSeq(ts[..|ts| - 1], f) + f(ts[|ts| - 1])
  }

  function Hashes(ts: seq<Torrent>): (r: seq<Hash>)
    ensures |r| == |ts| && forall i :: 0 <= i < |ts| ==> r[i] == ts[i].hash
  {
    seq(|ts|, i requires 0 <= i < |ts| => ts[i].hash)
  }

  function HashSet(ts: seq<Torrent>): set<Hash> {
    if ts == [] then {} else HashSet(ts[..|ts| - 1]) + {ts[|ts| - 1].hash}
  }

  /** Held torrents, each listed once. */
  ghost predicate Drawn(ts: seq<Torrent>, held: map<Hash, Torrent>) {
    ts != [] ==>
      var rest, t := ts[..|ts| - 1], ts[|ts| - 1];
      Drawn(rest, held) && t.hash in held && held[t.hash] == t && t.hash !in HashSet(rest)
  }

  lemma NothingTaken(held: map<Hash, Torrent>)
    ensures held - {} == held
  {
  }

  lemma PutCount(held: map<Hash, Torrent>, t: Torrent)
    ensures |held[t.hash := t]| == |held| + if t.hash in held then 0 else 1
  {
    assert held[t.hash := t].Keys == held.Keys + {t.hash};
  }

  lemma TakeOut(held: map<Hash, Torrent>, gone: set<Hash>, h: Hash)
    requires h in held && h !in gone
    ensures h in held - gone && (held - gone)[h] == held[h]
    ensures held - gone - {h} == held - (gone + {h})
    ensures |held - gone| == |held - (gone + {h})| + 1
  {
    assert held - gone - {h} == held - (gone + {h});
    assert (held - gone - {h}).Keys == (held - gone).Keys - {h};
  }

  lemma {:induction false} SumDrawn(ts: seq<Torrent>, held: map<Hash, Torrent>, f: Torrent -> nat)
    requires Drawn(ts, held)
    ensures Sum(held, f) == SumSeq(ts, f) + Sum(held - HashSet(ts), f)
  {
    if ts == [] {
      NothingTaken(held);
    } else {
      var rest, t := ts[..|ts| - 1], ts[|ts| - 1];
      SumDrawn(rest, held, f);
      TakeOut(held, HashSet(rest), t.hash);
      SumWithout(held - HashSet(rest), t.hash, f);
    }
  }

  lemma {:induction false} CountDrawn(ts: seq<Torrent>, held: map<Hash, Torrent>)
    requires Drawn(ts, held)
    ensures |held| == |ts| + |held - HashSet(ts)|
  {
    if ts == [] {
      NothingTaken(held);
    } else {
      var rest, t := ts[..|ts| - 1], ts[|ts| - 1];
      CountDrawn(rest, held);
      TakeOut(held, HashSet(rest), t.hash);
    }
  }

  lemma PutThenTakeOut(held: map<Hash, Torrent>, t: Torrent, gone: set<Hash>)
    ensures held[t.hash := t] - gone == if t.hash in gone then held - gone else (held - gone)[t.hash := t]
    ensures t.hash !in held ==> held - gone - {t.hash} == held - gone
  {
  }

  /** Putting one torrent in and taking a drawn list out moves a sum by at most the difference. */
  lemma SumExchange(held: map<Hash, Torrent>, t: Torrent, out: seq<Torrent>, f: Torrent -> nat)
    requires Drawn(out, held)
    ensures Sum(held[t.hash := t] - HashSet(out), f) + SumSeq(out, f) <= Sum(held, f) + f(t)
    ensures t.hash !in held && t.hash !in HashSet(out) ==>
              Sum(held[t.hash := t] - HashSet(out), f) + SumSeq(out, f) == Sum(held, f) + f(t)
  {
    SumDrawn(out, held, f);
    PutThenTakeOut(held, t, HashSet(out));
    SumPut(held - HashSet(out), t, f);
  }

  lemma CountExchange(held: map<Hash, Torrent>, t: Torrent, out: seq<Torrent>)
    requires Drawn(out, held)
    ensures |held[t.hash := t] - HashSet(out)| + |out| <= |held| + 1
    ensures t.hash !in held && t.hash !in HashSet(out) ==> |held[t.hash := t] - HashSet(out)| + |out| == |held| + 1
  {
    CountDrawn(out, held);
    PutThenTakeOut(held, t, HashSet(out));
    PutCount(held - HashSet(out), t);
  }

  // ---- the three resources ----

  function DiskShare(path: Path): Torrent -> nat {
    (t: Torrent) => if t.location == path then t.size + PER_TORRENT_SIZE_BUFFER else 0
  }

  /** A held torrent of unknown piece count is priced as a typical one. */
  function HeldPrice(peerLimit: nat): Torrent -> nat {
    (t: Torrent) => Ram.TorrentRam(if t.pieces > 0 then t.pieces else 1024, peerLimit)
  }

  /** A displaced torrent of unknown piece count is credited as one piece. */
  function FreedPrice(peerLimit: nat): Torrent -> nat {
    (t: Torrent) => Ram.TorrentRam(Max(t.pieces, 1), peerLimit)
  }

  function Size(): Torrent -> nat {
    (t: Torrent) => t.size
  }

  ghost function DiskUsed(held: map<Hash, Torrent>, path: Path): nat {
    Sum(held, DiskShare(path))
  }

  ghost function RamUsed(held: map<Hash, Torrent>, cfg: Config): nat {
    Sum(held, HeldPrice(Ram.PeerLimitForBudget(cfg.ramBudget)))
  }

  function LimitOf(cfg: Config, path: Path): nat {
    LimitFrom(cfg.storage, path)
  }

  function LimitFrom(storage: seq<Location>, path: Path): nat {
    if storage == [] then 0
    else if storage[0].path == path then storage[0].limit
    else LimitFrom(storage[1..], path)
  }

  // ---- operations ----

  datatype Op =
    | Enter(t: Torrent, cause: Cause, chance: real, roll: real, seederFloor: nat, displaced: seq<Torrent>, at: int)
    | Leave(hash: Hash, cause: Cause, at: int)
    | TripOp(hash: Hash, trip: Trip, at: int)
    | Lift(hash: Hash, at: int)
    | Collect(hash: Hash, at: int)
    | Rearm(hash: Hash, at: int)
    | Confirm(catalog: set<Hash>, at: int)
    | Refresh(hash: Hash, seeders: Option<nat>, progress: nat, at: int)

  function Entry(quarantined: map<Hash, Quarantine>, h: Hash): Option<Quarantine> {
    if h in quarantined then Some(quarantined[h]) else None
  }

  /** When a re-armed entry lapses again. */
  function RearmedUntil(cfg: Config, now: int): int {
    match CheckedAdd(now, Max(cfg.cooldown, cfg.checkInterval))
    case Some(t) => t
    case None => FarFuture(now)
  }

  function Confirmed(t: Torrent, catalog: set<Hash>, now: int): Torrent {
    if t.hash in catalog && (t.confirmedAt.None? || t.confirmedAt.value < now) then t.(confirmedAt := Some(now)) else t
  }

  /** Progress only moves the clock when verified bytes grew, or when it was never stamped. */
  function Progressed(t: Torrent, progress: nat, now: int): Torrent {
    if progress > t.completed || t.progressAt.None? then t.(completed := progress, progressAt := Some(now)) else t
  }

  function Refreshed(t: Torrent, seeders: Option<nat>, progress: nat, now: int): Torrent {
    Progressed(if seeders.Some? then t.(seeders := seeders.value) else t, progress, now)
  }

  function RemovalOf(t: Torrent, cause: Cause): Event {
    Remove(t.hash, t.size, t.seeders, t.location, cause)
  }

  function EntryOf(cfg: Config, op: Op): Event
    requires op.Enter?
  {
    Add(op.t.hash, op.t.size, op.t.seeders, op.t.location, op.cause, cfg.written(op.chance), cfg.written(op.roll),
        op.seederFloor, Hashes(op.displaced))
  }

  function Apply(cfg: Config, b: Books, op: Op): Books {
    match op
    case Enter(t, cause, chance, roll, floor, displaced, at) =>
      Books(b.held[t.hash := t] - HashSet(displaced), b.quarantined, b.ledger + [EntryOf(cfg, op)])
    case Leave(h, cause, at) =>
      if h in b.held then b.(held := b.held - {h}, ledger := b.ledger + [RemovalOf(b.held[h], cause)]) else b
    case TripOp(h, trip, at) =>
      Books(b.held - {h},
            b.quarantined[h := NextQuarantineEntry(Entry(b.quarantined, h), trip, at, cfg.cooldown, cfg.maxRetries)],
            if h in b.held then b.ledger + [RemovalOf(b.held[h], Quarantined)] else b.ledger)
    case Lift(h, at) => b.(quarantined := b.quarantined - {h})
    case Collect(h, at) => b.(quarantined := b.quarantined - {h})
    case Rearm(h, at) =>
      if h in b.quarantined then
        b.(quarantined := b.quarantined[h := b.quarantined[h].(cooldownUntil := RearmedUntil(cfg, at))])
      else b
    case Confirm(catalog, at) => b.(held := map h | h in b.held :: Confirmed(b.held[h], catalog, at))
    case Refresh(h, seeders, progress, at) =>
      if h in b.held then
        b.(held := b.held[h := Refreshed(b.held[h], seeders, progress, at)])
      else b
  }

  ghost predicate Keyed(held: map<Hash, Torrent>) {
    forall h :: h in held ==> held[h].hash == h
  }

  function Anchor(t: Torrent): int {
    if t.confirmedAt.Some? then t.confirmedAt.value else t.addedAt
  }

  // ---- what the code asks before each operation ----

  ghost predicate RoomToFill(cfg: Config, b: Books, t: Torrent) {
    && |b.held| < cfg.maxTorrents
    && Ram.TorrentRam(t.pieces, Ram.PeerLimitForBudget(cfg.ramBudget)) <= SatSub(cfg.ramBudget, RamUsed(b.held, cfg))
    && SizeNeeded(t.size) <= SatSub(LimitOf(cfg, t.location), DiskUsed(b.held, t.location))
  }

  ghost predicate PaysForSwap(cfg: Config, b: Books, t: Torrent, displaced: seq<Torrent>) {
    var peerLimit := Ram.PeerLimitForBudget(cfg.ramBudget);
    && displaced != []
    && Drawn(displaced, b.held)
    && (forall i :: 0 <= i < |displaced| ==>
          && displaced[i].location == t.location
          && displaced[i].seeders - cfg.minSeedMargin >= t.seeders)
    && SumSeq(displaced, Size()) >= SizeNeeded(t.size)
    && SumSeq(displaced, FreedPrice(peerLimit)) >= Ram.TorrentRam(t.pieces, peerLimit)
  }

  ghost predicate Lawful(cfg: Config, b: Books, op: Op) {
    match op
    case Enter(t, cause, chance, roll, floor, displaced, at) =>
      && t.seeders >= 1
      && t.pieces >= 1 && t.size <= U64_MAX
      && chance == Selector.SelectionChance(cfg.aggressiveness, t.seeders, floor)
      && roll < chance
      && t.confirmedAt == Some(at)
      && (t.hash in b.quarantined ==> b.quarantined[t.hash].cooldownUntil <= at && displaced == [])
      && (t.hash !in b.quarantined ==> 0.0 <= roll)
      && (if displaced == [] then RoomToFill(cfg, b, t) else PaysForSwap(cfg, b, t, displaced))
    case Leave(h, cause, at) =>
      h in b.held && (cause == DeletedFromCatalog ==> at - Anchor(b.held[h]) >= cfg.vanishedTimeout)
    case TripOp(h, trip, at) => true
    case Lift(h, at) => true
    case Collect(h, at) => h in b.quarantined && b.quarantined[h].cooldownUntil <= at && h !in b.held
    case Rearm(h, at) => h in b.quarantined && b.quarantined[h].cooldownUntil <= at
    case Confirm(catalog, at) => true
    case Refresh(h, seeders, progress, at) => true
  }

  // ---- runs ----

  function Run(cfg: Config, b: Books, ops: seq<Op>): Books {
    if ops == [] then b else Apply(cfg, Run(cfg, b, ops[..|ops| - 1]), ops[|ops| - 1])
  }

  ghost predicate LawfulRun(cfg: Config, b: Books, ops: seq<Op>) {
    ops != [] ==>
      && LawfulRun(cfg, b, ops[..|ops| - 1])
      && Lawful(cfg, Run(cfg, b, ops[..|ops| - 1]), ops[|ops| - 1])
  }

  /** What may be known of a run: nothing, that entering footprints fit 64 bits, or that no entry or confirmation has an earlier clock. */
  datatype Measure = Anything | Sized | Since(from: int)

  predicate Measured(m: Measure, op: Op) {
    match m
    case Anything => true
    case Sized => op.Enter? ==> op.t.size + PER_TORRENT_SIZE_BUFFER <= U64_MAX
    case Since(from) => op.Enter? || op.Confirm? ==> op.at >= from
  }

  predicate AllMeasured(m: Measure, ops: seq<Op>) {
    ops == [] || (AllMeasured(m, ops[..|ops| - 1]) && Measured(m, ops[|ops| - 1]))
  }

  /** No entry and no confirmation. */
  predicate Upkeep(ops: seq<Op>) {
    ops == [] || (Upkeep(ops[..|ops| - 1]) && !ops[|ops| - 1].Enter? && !ops[|ops| - 1].Confirm?)
  }

  lemma {:induction false} UpkeepMeasured(m: Measure, ops: seq<Op>)
    requires Upkeep(ops)
    ensures AllMeasured(m, ops)
  {
    if ops != [] {
      UpkeepMeasured(m, ops[..|ops| - 1]);
    }
  }

  lemma MeasuredSnoc(m: Measure, ops: seq<Op>, op: Op)
    ensures AllMeasured(m, ops + [op]) <==> AllMeasured(m, ops) && Measured(m, op)
  {
    assert (ops + [op])[..|ops|] == ops;
  }

  lemma {:induction false} MeasuredConcat(m: Measure, xs: seq<Op>, ys: seq<Op>)
    ensures AllMeasured(m, xs + ys) <==> AllMeasured(m, xs) && AllMeasured(m, ys)
  {
    if ys == [] {
      assert xs + ys == xs;
    } else {
      MeasuredConcat(m, xs, ys[..|ys| - 1]);
      assert (xs + ys)[..|xs + ys| - 1] == xs + ys[..|ys| - 1];
    }
  }

  lemma RunSnoc(cfg: Config, b: Books, ops: seq<Op>, op: Op)
    ensures Upkeep(ops + [op]) <==> Upkeep(ops) && !op.Enter? && !op.Confirm?
    ensures Run(cfg, b, ops + [op]) == Apply(cfg, Run(cfg, b, ops), op)
    ensures LawfulRun(cfg, b, ops + [op]) <==> LawfulRun(cfg, b, ops) && Lawful(cfg, Run(cfg, b, ops), op)
  {
    assert (ops + [op])[..|ops|] == ops;
  }

  lemma {:induction false} RunConcat(cfg: Config, b: Books, xs: seq<Op>, ys: seq<Op>)
    ensures Run(cfg, b, xs + ys) == Run(cfg, Run(cfg, b, xs), ys)
    ensures LawfulRun(cfg, b, xs + ys) <==> LawfulRun(cfg, b, xs) && LawfulRun(cfg, Run(cfg, b, xs), ys)
  {
    if ys == [] {
      assert xs + ys == xs;
    } else {
      var front, op := ys[..|ys| - 1], ys[|ys| - 1];
      RunConcat(cfg, b, xs, front);
      RunSnoc(cfg, b, xs + front, op);
      assert xs + front + [op] == xs + ys;
    }
  }

  lemma {:induction false} RunStaysKeyed(cfg: Config, b: Books, ops: seq<Op>)
    requires Keyed(b.held)
    ensures Keyed(Run(cfg, b, ops).held)
  {
    if ops != [] {
      RunStaysKeyed(cfg, b, ops[..|ops| - 1]);
    }
  }
}
