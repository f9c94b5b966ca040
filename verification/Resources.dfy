/** The three resources over every run of lawful operations: nominal disk, priced RAM, held count. */
module Resources {
  import opened Words
  import opened Holdings
  import Ram

  // ---- resources: what an operation frees and takes ----

  function Peers(cfg: Config): nat {
    Ram.PeerLimitForBudget(cfg.ramBudget)
  }

  lemma {:induction false} DiskShareOfList(ts: seq<Torrent>, path: Path)
    requires forall i :: 0 <= i < |ts| ==> ts[i].location == path
    ensures SumSeq(ts, DiskShare(path)) == SumSeq(ts, Size()) + |ts| * PER_TORRENT_SIZE_BUFFER
  {
    if ts != [] {
      DiskShareOfList(ts[..|ts| - 1], path);
    }
  }

  /** A displaced torrent is never credited with more RAM than its removal frees. */
  lemma {:induction false} CreditWithinPrice(ts: seq<Torrent>, peerLimit: nat)
    ensures SumSeq(ts, FreedPrice(peerLimit)) <= SumSeq(ts, HeldPrice(peerLimit))
  {
    if ts != [] {
      CreditWithinPrice(ts[..|ts| - 1], peerLimit);
      Ram.PriceIsMonotone(1, 1024, peerLimit);
    }
  }

  function After(b: Books, t: Torrent, displaced: seq<Torrent>): map<Hash, Torrent> {
    b.held[t.hash := t] - HashSet(displaced)
  }

  /**
   * A swap raises the disk use of no location, although the displaced torrents are credited without
   * their buffers and the need saturates at 64 bits.
   */
  lemma SwapNeverRaisesDisk(cfg: Config, b: Books, t: Torrent, displaced: seq<Torrent>, path: Path)
    requires PaysForSwap(cfg, b, t, displaced) && t.size <= U64_MAX
    ensures DiskUsed(After(b, t, displaced), path) <= DiskUsed(b.held, path)
  {
    SumExchange(b.held, t, displaced, DiskShare(path));
    if path == t.location {
      DiskShareOfList(displaced, path);
      BuffersCover(displaced, t);
    }
  }

  /** Some displaced buffer stands in for the newcomer's, and a saturated need still covers its size. */
  lemma BuffersCover(displaced: seq<Torrent>, t: Torrent)
    requires displaced != [] && t.size <= U64_MAX && SumSeq(displaced, Size()) >= SizeNeeded(t.size)
    ensures SumSeq(displaced, Size()) + |displaced| * PER_TORRENT_SIZE_BUFFER >= t.size + PER_TORRENT_SIZE_BUFFER
  {
    assert |displaced| * PER_TORRENT_SIZE_BUFFER >= PER_TORRENT_SIZE_BUFFER;
  }

  /** A swap never raises the held count, nor does a fill at the cap pass it. */
  lemma EnterKeepsCount(cfg: Config, b: Books, t: Torrent, displaced: seq<Torrent>)
    requires if displaced == [] then |b.held| < cfg.maxTorrents else Drawn(displaced, b.held)
    ensures displaced == [] ==> |After(b, t, displaced)| <= cfg.maxTorrents
    ensures displaced != [] ==> |After(b, t, displaced)| <= |b.held|
  {
    CountExchange(b.held, t, displaced);
  }

  /**
   * A swap raises priced RAM exactly when the newcomer's held price exceeds that of what it displaced;
   * with a known piece count it never does, although the displaced are credited at less than their price.
   */
  lemma SwapRaisesRamExactly(cfg: Config, b: Books, t: Torrent, displaced: seq<Torrent>)
    requires PaysForSwap(cfg, b, t, displaced) && t.hash !in b.held && t.hash !in HashSet(displaced)
    ensures RamUsed(After(b, t, displaced), cfg) > RamUsed(b.held, cfg)
            <==> SumSeq(displaced, HeldPrice(Peers(cfg))) < HeldPrice(Peers(cfg))(t)
    ensures t.pieces > 0 ==> RamUsed(After(b, t, displaced), cfg) <= RamUsed(b.held, cfg)
  {
    SumExchange(b.held, t, displaced, HeldPrice(Peers(cfg)));
    CreditWithinPrice(displaced, Peers(cfg));
  }

  /** The same bound when the newcomer replaces an entry under its own hash. */
  lemma KnownSwapNeverRaisesRam(cfg: Config, b: Books, t: Torrent, displaced: seq<Torrent>)
    requires PaysForSwap(cfg, b, t, displaced) && t.pieces > 0
    ensures RamUsed(After(b, t, displaced), cfg) <= RamUsed(b.held, cfg)
  {
    SumExchange(b.held, t, displaced, HeldPrice(Peers(cfg)));
    CreditWithinPrice(displaced, Peers(cfg));
  }

  lemma FillExchange(held: map<Hash, Torrent>, t: Torrent, f: Torrent -> nat)
    ensures Sum(held[t.hash := t] - HashSet([]), f) <= Sum(held, f) + f(t)
    ensures t.hash !in held ==> Sum(held[t.hash := t] - HashSet([]), f) == Sum(held, f) + f(t)
  {
    SumExchange(held, t, [], f);
  }

  /**
   * A fill keeps its location within the limit exactly when its footprint fits 64 bits: the admission
   * test saturates, so an oversized need passes an empty location whose limit is the whole word.
   */
  lemma FillKeepsDiskExactly(cfg: Config, b: Books, t: Torrent)
    requires RoomToFill(cfg, b, t) && t.hash !in b.held && LimitOf(cfg, t.location) <= U64_MAX
    ensures DiskUsed(After(b, t, []), t.location) <= LimitOf(cfg, t.location)
            <==> t.size + PER_TORRENT_SIZE_BUFFER <= U64_MAX
  {
    FillExchange(b.held, t, DiskShare(t.location));
  }

  /**
   * Metadata always carries a piece count. If it ever did not, a fill would keep priced RAM within the budget
   * exactly when a typical torrent fits the headroom: no count is admitted as one piece and then priced as 1024.
   */
  lemma FillKeepsRamExactly(cfg: Config, b: Books, t: Torrent)
    requires RoomToFill(cfg, b, t) && t.hash !in b.held
    ensures RamUsed(After(b, t, []), cfg) <= cfg.ramBudget
            <==> t.pieces > 0 || Ram.TorrentRam(1024, Peers(cfg)) <= SatSub(cfg.ramBudget, RamUsed(b.held, cfg))
  {
    FillExchange(b.held, t, HeldPrice(Peers(cfg)));
  }

  // ---- resources over runs ----

  lemma {:induction false} SumPointwise(a: map<Hash, Torrent>, b: map<Hash, Torrent>, f: Torrent -> nat)
    requires a.Keys == b.Keys && forall h :: h in a ==> f(a[h]) == f(b[h])
    ensures Sum(a, f) == Sum(b, f)
    decreases |a|
  {
    if a != map[] {
      var h :| h in a;
      SumWithout(a, h, f);
      SumWithout(b, h, f);
      SumPointwise(a - {h}, b - {h}, f);
    } else {
      assert b == map[];
    }
  }

  lemma SumLess(held: map<Hash, Torrent>, h: Hash, f: Torrent -> nat)
    ensures Sum(held - {h}, f) <= Sum(held, f)
    ensures |held - {h}| <= |held|
  {
    if h in held {
      SumWithout(held, h, f);
      assert (held - {h}).Keys == held.Keys - {h};
    } else {
      assert held - {h} == held;
    }
  }

  ghost predicate Unstamped(f: Torrent -> nat) {
    forall t, catalog, now :: f(Confirmed(t, catalog, now)) == f(t)
  }

  ghost predicate Unrefreshed(f: Torrent -> nat) {
    forall t: Torrent, s, p, now :: f(Refreshed(t, s, p, now)) == f(t)
  }

  lemma ConfirmKeepsSum(cfg: Config, b: Books, catalog: set<Hash>, at: int, f: Torrent -> nat)
    requires Unstamped(f)
    ensures var after := Apply(cfg, b, Confirm(catalog, at)).held;
            Sum(after, f) == Sum(b.held, f) && |after| == |b.held|
  {
    var after := Apply(cfg, b, Confirm(catalog, at)).held;
    assert after.Keys == b.held.Keys;
    SumPointwise(after, b.held, f);
  }

  lemma RefreshKeepsSum(cfg: Config, b: Books, op: Op, f: Torrent -> nat)
    requires op.Refresh? && Unrefreshed(f)
    ensures Sum(Apply(cfg, b, op).held, f) == Sum(b.held, f) && |Apply(cfg, b, op).held| == |b.held|
  {
    if op.hash in b.held {
      var after := b.held[op.hash := Refreshed(b.held[op.hash], op.seeders, op.progress, op.at)];
      assert after.Keys == b.held.Keys;
      SumPointwise(after, b.held, f);
    }
  }

  lemma RemovalNeverRaises(cfg: Config, b: Books, op: Op, f: Torrent -> nat)
    requires op.Leave? || op.TripOp?
    ensures Sum(Apply(cfg, b, op).held, f) <= Sum(b.held, f) && |Apply(cfg, b, op).held| <= |b.held|
  {
    SumLess(b.held, op.hash, f);
  }

  lemma RegistryKeepsHeld(cfg: Config, b: Books, op: Op)
    requires op.Lift? || op.Collect? || op.Rearm?
    ensures Apply(cfg, b, op).held == b.held
  {
  }

  /** Neither a confirmation stamp nor a refresh changes what a torrent costs, so only entering can raise a sum. */
  lemma OthersNeverRaise(cfg: Config, b: Books, op: Op, f: Torrent -> nat)
    requires !op.Enter? && Unstamped(f) && Unrefreshed(f)
    ensures Sum(Apply(cfg, b, op).held, f) <= Sum(b.held, f)
    ensures |Apply(cfg, b, op).held| <= |b.held|
  {
    if op.Leave? || op.TripOp? {
      RemovalNeverRaises(cfg, b, op, f);
    } else if op.Confirm? {
      ConfirmKeepsSum(cfg, b, op.catalog, op.at, f);
    } else if op.Refresh? {
      RefreshKeepsSum(cfg, b, op, f);
    } else {
      RegistryKeepsHeld(cfg, b, op);
    }
  }

  lemma DiskStep(cfg: Config, b: Books, op: Op, path: Path)
    requires Keyed(b.held) && Lawful(cfg, b, op) && (LimitOf(cfg, path) < U64_MAX || Measured(Sized, op))
    ensures DiskUsed(Apply(cfg, b, op).held, path) <= Max(DiskUsed(b.held, path), LimitOf(cfg, path))
  {
    if !op.Enter? {
      OthersNeverRaise(cfg, b, op, DiskShare(path));
    } else if op.displaced == [] {
      FillWithinLimit(cfg, b, op.t, path);
    } else {
      SwapNeverRaisesDisk(cfg, b, op.t, op.displaced, path);
    }
  }

  lemma FillWithinLimit(cfg: Config, b: Books, t: Torrent, path: Path)
    requires RoomToFill(cfg, b, t)
    requires LimitOf(cfg, path) < U64_MAX || t.size + PER_TORRENT_SIZE_BUFFER <= U64_MAX
    ensures DiskUsed(After(b, t, []), path) <= Max(DiskUsed(b.held, path), LimitOf(cfg, path))
  {
    FillExchange(b.held, t, DiskShare(path));
  }

  lemma CountStep(cfg: Config, b: Books, op: Op)
    requires Keyed(b.held) && Lawful(cfg, b, op)
    ensures |Apply(cfg, b, op).held| <= Max(|b.held|, cfg.maxTorrents)
  {
    if !op.Enter? {
      OthersNeverRaise(cfg, b, op, (t: Torrent) => 0);
    } else {
      EnterKeepsCount(cfg, b, op.t, op.displaced);
    }
  }

  lemma RamStep(cfg: Config, b: Books, op: Op)
    requires Keyed(b.held) && Lawful(cfg, b, op)
    ensures RamUsed(Apply(cfg, b, op).held, cfg) <= Max(RamUsed(b.held, cfg), cfg.ramBudget)
  {
    if !op.Enter? {
      OthersNeverRaise(cfg, b, op, HeldPrice(Peers(cfg)));
    } else if op.displaced == [] {
      FillExchange(b.held, op.t, HeldPrice(Peers(cfg)));
    } else {
      KnownSwapNeverRaisesRam(cfg, b, op.t, op.displaced);
    }
  }

  /**
   * Over any run, a location's nominal bytes and buffers stay within the larger of where they began and its
   * limit. Only under a limit of the whole word, which the saturated need can meet, do the footprints have to fit.
   */
  lemma {:induction false} DiskStaysWithinLimit(cfg: Config, b: Books, ops: seq<Op>, path: Path)
    requires Keyed(b.held) && LawfulRun(cfg, b, ops) && (LimitOf(cfg, path) < U64_MAX || AllMeasured(Sized, ops))
    ensures DiskUsed(Run(cfg, b, ops).held, path) <= Max(DiskUsed(b.held, path), LimitOf(cfg, path))
  {
    if ops != [] {
      var before := ops[..|ops| - 1];
      DiskStaysWithinLimit(cfg, b, before, path);
      RunStaysKeyed(cfg, b, before);
      DiskStep(cfg, Run(cfg, b, before), ops[|ops| - 1], path);
    }
  }

  lemma {:induction false} CountStaysWithinCap(cfg: Config, b: Books, ops: seq<Op>)
    requires Keyed(b.held) && LawfulRun(cfg, b, ops)
    ensures |Run(cfg, b, ops).held| <= Max(|b.held|, cfg.maxTorrents)
  {
    if ops != [] {
      var before := ops[..|ops| - 1];
      CountStaysWithinCap(cfg, b, before);
      RunStaysKeyed(cfg, b, before);
      CountStep(cfg, Run(cfg, b, before), ops[|ops| - 1]);
    }
  }

  /** Over any run, whatever held torrents of unknown piece count it began with, priced RAM stays within the budget or where it began. */
  lemma {:induction false} RamStaysWithinBudget(cfg: Config, b: Books, ops: seq<Op>)
    requires Keyed(b.held) && LawfulRun(cfg, b, ops)
    ensures RamUsed(Run(cfg, b, ops).held, cfg) <= Max(RamUsed(b.held, cfg), cfg.ramBudget)
  {
    if ops != [] {
      var before := ops[..|ops| - 1];
      RamStaysWithinBudget(cfg, b, before);
      RunStaysKeyed(cfg, b, before);
      RamStep(cfg, Run(cfg, b, before), ops[|ops| - 1]);
    }
  }

  // ---- which hosts can hold anything ----

  function NothingHeld(): Books {
    Books(map[], map[], [])
  }

  lemma NothingUsed(cfg: Config, path: Path)
    ensures RamUsed(NothingHeld().held, cfg) == 0 && DiskUsed(NothingHeld().held, path) == 0 && |NothingHeld().held| == 0
  {
  }

  function Plain(hash: Hash, pieces: nat, seeders: nat): Torrent {
    Torrent(hash, 1000, 0, pieces, seeders, 0, 0, None, None)
  }

  /** The configuration of a host with this much memory and this much allowed. */
  predicate HostConfig(cfg: Config, systemTotal: nat, configuredMaxRam: nat) {
    var cap := Ram.MaxTorrentsForBudget(systemTotal, configuredMaxRam);
    cfg.ramBudget == cap.budget && cfg.maxTorrents == cap.maxTorrents
  }

  /** The count cap is positive exactly when the budget pays for a typical torrent, or nothing was measured or configured. */
  lemma CapIsPositiveExactly(systemTotal: nat, configuredMaxRam: nat)
    ensures var cap := Ram.MaxTorrentsForBudget(systemTotal, configuredMaxRam);
            cap.maxTorrents > 0 <==> cap.budget >= 512 * Ram.KIB || (systemTotal == 0 && configuredMaxRam == 0)
  {
    var cap := Ram.MaxTorrentsForBudget(systemTotal, configuredMaxRam);
    var typical := Ram.TypicalTorrentRam(cap.budget);
    QuotientBrackets(cap.budget, typical);
    assert cap.budget < 256 * Ram.MIB ==> typical == 512 * Ram.KIB;
    assert cap.budget / typical > 0 <==> cap.budget >= typical;
  }

  /** Nothing is ever admitted to free space, whatever is held, under a budget below the price of a typical torrent. */
  lemma SmallBudgetNeverFills(cfg: Config, systemTotal: nat, configuredMaxRam: nat, b: Books, t: Torrent)
    requires HostConfig(cfg, systemTotal, configuredMaxRam) && cfg.ramBudget < 512 * Ram.KIB
    ensures !RoomToFill(cfg, b, t)
  {
    CapIsPositiveExactly(systemTotal, configuredMaxRam);
  }

  /**
   * A host with room on some disk can fill it exactly when its budget is half a mebibyte or more, the price of
   * a typical torrent. That the count cap is off for unmeasured memory does not help: no budget is none.
   */
  lemma HostFillsExactly(cfg: Config, systemTotal: nat, configuredMaxRam: nat, path: Path)
    requires HostConfig(cfg, systemTotal, configuredMaxRam) && LimitOf(cfg, path) >= SizeNeeded(1000)
    ensures (exists b: Books, t: Torrent :: t.pieces >= 1 && RoomToFill(cfg, b, t)) <==> cfg.ramBudget >= 512 * Ram.KIB
    ensures cfg.ramBudget >= 512 * Ram.KIB ==> RoomToFill(cfg, NothingHeld(), Plain(1, 1, 1).(location := path))
  {
    if cfg.ramBudget >= 512 * Ram.KIB {
      CapIsPositiveExactly(systemTotal, configuredMaxRam);
      NothingUsed(cfg, path);
      var t := Plain(1, 1, 1).(location := path);
      assert t.pieces >= 1 && RoomToFill(cfg, NothingHeld(), t);
    }
    forall b, t | cfg.ramBudget < 512 * Ram.KIB ensures !RoomToFill(cfg, b, t) {
      SmallBudgetNeverFills(cfg, systemTotal, configuredMaxRam, b, t);
    }
  }

  /** So a host whose memory cannot be measured, with none configured, has no count cap and yet never fills free space. */
  lemma UnmeasuredRamNeverFills(cfg: Config, b: Books, t: Torrent)
    requires HostConfig(cfg, 0, 0)
    ensures cfg.maxTorrents == U64_MAX && !RoomToFill(cfg, b, t)
  {
    SmallBudgetNeverFills(cfg, 0, 0, b, t);
  }

  // ---- where the disk bound is passed ----

  function WordFiller(path: Path): Torrent {
    Plain(1, 1, 1).(size := U64_MAX, location := path)
  }

  /** An empty location limited only by the word admits a torrent that fills it, and its buffer goes past. */
  lemma SaturatedNeedPassesLimit(cfg: Config, path: Path)
    requires LimitOf(cfg, path) == U64_MAX && cfg.maxTorrents > 0 && cfg.ramBudget >= 512 * Ram.KIB
    ensures RoomToFill(cfg, NothingHeld(), WordFiller(path))
    ensures DiskUsed(After(NothingHeld(), WordFiller(path), []), path) > LimitOf(cfg, path)
  {
    NothingUsed(cfg, path);
    FillKeepsDiskExactly(cfg, NothingHeld(), WordFiller(path));
  }

  /** On a host that can fill at all, every fill keeps a location's limit exactly when that limit is not the whole word. */
  lemma FillsKeepDiskExactly(cfg: Config, path: Path)
    requires cfg.maxTorrents > 0 && cfg.ramBudget >= 512 * Ram.KIB && LimitOf(cfg, path) <= U64_MAX
    ensures (forall b, t :: Admitted(cfg, b, t, path) ==> DiskUsed(After(b, t, []), path) <= LimitOf(cfg, path))
            <==> LimitOf(cfg, path) < U64_MAX
  {
    if LimitOf(cfg, path) < U64_MAX {
      forall b, t | Admitted(cfg, b, t, path) ensures DiskUsed(After(b, t, []), path) <= LimitOf(cfg, path) {
        FillKeepsDiskExactly(cfg, b, t);
      }
    } else {
      SaturatedNeedPassesLimit(cfg, path);
      assert Admitted(cfg, NothingHeld(), WordFiller(path), path);
    }
  }

  ghost predicate Admitted(cfg: Config, b: Books, t: Torrent, path: Path) {
    t.location == path && t.pieces >= 1 && t.size <= U64_MAX && t.hash !in b.held && RoomToFill(cfg, b, t)
  }
}
