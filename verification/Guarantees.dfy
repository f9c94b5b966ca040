/** What the ledger, the quarantine registry, the grace window and the seed margin guarantee over whole runs. */
module Guarantees {
  import opened Words
  import opened Quarantines
  import opened Holdings

  // ---- the ledger replays to the held set ----

  function SetOf(hashes: seq<Hash>): set<Hash> {
    if hashes == [] then {} else SetOf(hashes[..|hashes| - 1]) + {hashes[|hashes| - 1]}
  }

  function ReplayEvent(keys: set<Hash>, e: Event): set<Hash> {
    match e
    case Add(h, _, _, _, _, _, _, _, displaced) => keys + {h} - SetOf(displaced)
    case Remove(h, _, _, _, _) => keys - {h}
  }

  /** The held set a reader of the ledger reconstructs. */
  function Replay(start: set<Hash>, events: seq<Event>): set<Hash> {
    if events == [] then start
    else ReplayEvent(Replay(start, events[..|events| - 1]), events[|events| - 1])
  }

  lemma {:induction false} SetOfHashes(ts: seq<Torrent>)
    ensures SetOf(Hashes(ts)) == HashSet(ts)
  {
    if ts != [] {
      SetOfHashes(ts[..|ts| - 1]);
      assert Hashes(ts)[..|ts| - 1] == Hashes(ts[..|ts| - 1]);
    }
  }

  /** What one operation writes: at most one event. */
  function Logged(cfg: Config, b: Books, op: Op): seq<Event> {
    match op
    case Enter(t, cause, chance, roll, floor, displaced, at) => [EntryOf(cfg, op)]
    case Leave(h, cause, at) => if h in b.held then [RemovalOf(b.held[h], cause)] else []
    case TripOp(h, trip, at) => if h in b.held then [RemovalOf(b.held[h], Quarantined)] else []
    case _ => []
  }

  lemma LoggedIsAppended(cfg: Config, b: Books, op: Op)
    ensures Apply(cfg, b, op).ledger == b.ledger + Logged(cfg, b, op)
  {
  }

  lemma LoggedMovesKeys(cfg: Config, b: Books, op: Op)
    requires Keyed(b.held)
    ensures Logged(cfg, b, op) == [] ==> Apply(cfg, b, op).held.Keys == b.held.Keys
    ensures Logged(cfg, b, op) != [] ==> Apply(cfg, b, op).held.Keys == ReplayEvent(b.held.Keys, Logged(cfg, b, op)[0])
  {
    if op.Enter? {
      SetOfHashes(op.displaced);
    }
  }

  lemma ReplayStep(cfg: Config, b: Books, op: Op, start: set<Hash>, events: seq<Event>)
    requires Keyed(b.held) && Replay(start, events) == b.held.Keys
    ensures Replay(start, events + Logged(cfg, b, op)) == Apply(cfg, b, op).held.Keys
  {
    LoggedMovesKeys(cfg, b, op);
    if Logged(cfg, b, op) == [] {
      assert events + [] == events;
    } else {
      assert (events + Logged(cfg, b, op))[..|events|] == events;
    }
  }

  ghost predicate Extends(ledger: seq<Event>, earlier: seq<Event>) {
    |earlier| <= |ledger| && ledger[..|earlier|] == earlier
  }

  /**
   * Whatever interleaving of fills, swaps, evictions, delistings and trips has run, the events
   * recorded since replay to exactly the hashes now held.
   */
  lemma {:induction false} LedgerReplaysToHeld(cfg: Config, b: Books, ops: seq<Op>)
    requires Keyed(b.held)
    ensures var after := Run(cfg, b, ops);
            && Extends(after.ledger, b.ledger)
            && Replay(b.held.Keys, after.ledger[|b.ledger|..]) == after.held.Keys
  {
    if ops == [] {
      assert b.ledger[|b.ledger|..] == [];
    } else {
      var before, op := ops[..|ops| - 1], ops[|ops| - 1];
      LedgerReplaysToHeld(cfg, b, before);
      RunStaysKeyed(cfg, b, before);
      var books := Run(cfg, b, before);
      var events := books.ledger[|b.ledger|..];
      ReplayStep(cfg, books, op, b.held.Keys, events);
      LoggedIsAppended(cfg, books, op);
      assert (books.ledger + Logged(cfg, books, op))[|b.ledger|..] == events + Logged(cfg, books, op);
    }
  }

  // ---- cooldowns over runs ----

  ghost predicate NoneTouches(ops: seq<Op>, h: Hash) {
    forall op :: op in ops ==> !((op.TripOp? || op.Lift? || op.Collect?) && op.hash == h)
  }

  ghost predicate Calendar(ops: seq<Op>) {
    forall op :: op in ops ==> op.at <= MAX_UTC
  }

  /**
   * Without a trip, lift or collection of its hash, an entry stays, keeps its attempts, and its
   * cooldown only moves later: no probe shortens it.
   */
  lemma {:induction false} CooldownOnlyGrows(cfg: Config, b: Books, ops: seq<Op>, h: Hash)
    requires h in b.quarantined && LawfulRun(cfg, b, ops) && NoneTouches(ops, h) && Calendar(ops)
    ensures var after := Run(cfg, b, ops).quarantined;
            && h in after
            && after[h].attempts == b.quarantined[h].attempts
            && after[h].cooldownUntil >= b.quarantined[h].cooldownUntil
  {
    if ops != [] {
      var before, op := ops[..|ops| - 1], ops[|ops| - 1];
      assert op in ops && forall o :: o in before ==> o in ops;
      CooldownOnlyGrows(cfg, b, before, h);
    }
  }

  /**
   * A hash with an entry enters again only once the cooldown of that entry has passed, and then
   * only into free space: the operation that enters it takes nothing out.
   */
  lemma NoReturnBeforeCooldown(cfg: Config, b: Books, ops: seq<Op>, op: Op)
    requires op.Enter? && op.t.hash in b.quarantined
    requires LawfulRun(cfg, b, ops) && NoneTouches(ops, op.t.hash) && Calendar(ops)
    requires Lawful(cfg, Run(cfg, b, ops), op)
    ensures b.quarantined[op.t.hash].cooldownUntil <= op.at
    ensures Run(cfg, b, ops).held.Keys <= Apply(cfg, Run(cfg, b, ops), op).held.Keys
  {
    CooldownOnlyGrows(cfg, b, ops, op.t.hash);
    assert HashSet([]) == {};
  }

  /**
   * A tripped hash is kept out for at least the cooldown; once its retries are spent, for the
   * far-future term.
   */
  lemma TrippedHashStaysOut(cfg: Config, b: Books, trip: Op, ops: seq<Op>, back: Op)
    requires ValidConfig(cfg) && trip.TripOp? && back.Enter? && back.t.hash == trip.hash && trip.at <= MAX_UTC
    requires var tripped := Apply(cfg, b, trip);
             && LawfulRun(cfg, tripped, ops) && NoneTouches(ops, trip.hash) && Calendar(ops)
             && Lawful(cfg, Run(cfg, tripped, ops), back)
    ensures back.at >= Min(trip.at + cfg.cooldown, FarFuture(trip.at))
    ensures cfg.maxRetries > 0 && Attempts(b, trip.hash) >= cfg.maxRetries ==> back.at >= FarFuture(trip.at)
  {
    var tripped := Apply(cfg, b, trip);
    NoReturnBeforeCooldown(cfg, tripped, ops, back);
    EscalatesExactlyPastRetries(Entry(b.quarantined, trip.hash), trip.trip, trip.at, cfg.cooldown, cfg.maxRetries);
  }

  /**
   * Two probes of one hash, with no trip, lift or collection of it between them, are at least the
   * cooldown and at least the watchdog's interval apart (or the calendar has ended).
   */
  lemma ProbesAreSpaced(cfg: Config, b: Books, first: Op, ops: seq<Op>, second: Op)
    requires ValidConfig(cfg) && first.Rearm? && second.Rearm? && first.hash == second.hash && first.at <= MAX_UTC
    requires Lawful(cfg, b, first)
    requires var armed := Apply(cfg, b, first);
             && LawfulRun(cfg, armed, ops) && NoneTouches(ops, first.hash) && Calendar(ops)
             && Lawful(cfg, Run(cfg, armed, ops), second)
    ensures second.at >= Min(first.at + Max(cfg.cooldown, cfg.checkInterval), MAX_UTC)
  {
    CooldownOnlyGrows(cfg, Apply(cfg, b, first), ops, first.hash);
  }

  /** Between two operations of a lawful run lies a lawful run. */
  lemma Between(cfg: Config, b: Books, ops: seq<Op>, i: nat, j: nat)
    requires LawfulRun(cfg, b, ops) && i < j < |ops|
    ensures var before := Run(cfg, b, ops[..i]);
            var from := Apply(cfg, before, ops[i]);
            && Lawful(cfg, before, ops[i])
            && LawfulRun(cfg, from, ops[i + 1..j])
            && Lawful(cfg, Run(cfg, from, ops[i + 1..j]), ops[j])
  {
    LawfulPrefix(cfg, b, ops, j);
    LawfulAt(cfg, b, ops, j);
    SplitAround(ops, i, j);
    RunAround(cfg, b, ops[..i], ops[i], ops[i + 1..j]);
  }

  lemma SplitAround(ops: seq<Op>, i: nat, j: nat)
    requires i < j <= |ops|
    ensures ops[..j] == ops[..i] + [ops[i]] + ops[i + 1..j]
  {
  }

  lemma RunAround(cfg: Config, b: Books, front: seq<Op>, op: Op, rest: seq<Op>)
    requires LawfulRun(cfg, b, front + [op] + rest)
    ensures var before := Run(cfg, b, front);
            && Lawful(cfg, before, op)
            && LawfulRun(cfg, Apply(cfg, before, op), rest)
            && Run(cfg, b, front + [op] + rest) == Run(cfg, Apply(cfg, before, op), rest)
  {
    RunConcat(cfg, b, front + [op], rest);
    RunSnoc(cfg, b, front, op);
  }

  lemma {:induction false} LawfulPrefix(cfg: Config, b: Books, ops: seq<Op>, j: nat)
    requires LawfulRun(cfg, b, ops) && j <= |ops|
    ensures LawfulRun(cfg, b, ops[..j])
  {
    if j < |ops| {
      LawfulPrefix(cfg, b, ops[..|ops| - 1], j);
      assert ops[..|ops| - 1][..j] == ops[..j];
    } else {
      assert ops[..j] == ops;
    }
  }

  lemma CalendarOfPart(ops: seq<Op>, i: nat, j: nat)
    requires Calendar(ops) && i <= j <= |ops|
    ensures Calendar(ops[i..j])
  {
  }

  /** Anywhere in a lawful run, a tripped hash comes back no sooner than its cooldown, or the far-future term, allows. */
  lemma TripKeepsOut(cfg: Config, b: Books, ops: seq<Op>, i: nat, j: nat)
    requires ValidConfig(cfg) && LawfulRun(cfg, b, ops) && Calendar(ops) && i < j < |ops|
    requires ops[i].TripOp? && ops[j].Enter? && ops[j].t.hash == ops[i].hash && NoneTouches(ops[i + 1..j], ops[i].hash)
    ensures ops[j].at >= Min(ops[i].at + cfg.cooldown, FarFuture(ops[i].at))
    ensures cfg.maxRetries > 0 && Attempts(Run(cfg, b, ops[..i]), ops[i].hash) >= cfg.maxRetries ==>
              ops[j].at >= FarFuture(ops[i].at)
  {
    assert ops[i] in ops;
    Between(cfg, b, ops, i, j);
    CalendarOfPart(ops, i + 1, j);
    TrippedHashStaysOut(cfg, Run(cfg, b, ops[..i]), ops[i], ops[i + 1..j], ops[j]);
  }

  /** Anywhere in a lawful run, two probes of one hash are the cooldown and the watchdog's interval apart. */
  lemma ProbesKeepApart(cfg: Config, b: Books, ops: seq<Op>, i: nat, j: nat)
    requires ValidConfig(cfg) && LawfulRun(cfg, b, ops) && Calendar(ops) && i < j < |ops|
    requires ops[i].Rearm? && ops[j].Rearm? && ops[j].hash == ops[i].hash && NoneTouches(ops[i + 1..j], ops[i].hash)
    ensures ops[j].at >= Min(ops[i].at + Max(cfg.cooldown, cfg.checkInterval), MAX_UTC)
  {
    assert ops[i] in ops;
    Between(cfg, b, ops, i, j);
    CalendarOfPart(ops, i + 1, j);
    ProbesAreSpaced(cfg, Run(cfg, b, ops[..i]), ops[i], ops[i + 1..j], ops[j]);
  }

  // ---- attempts count trips ----

  function Attempts(b: Books, h: Hash): nat {
    if h in b.quarantined then b.quarantined[h].attempts else 0
  }

  predicate Resets(op: Op, h: Hash) {
    (op.Lift? || op.Collect?) && op.hash == h
  }

  predicate Trips(op: Op, h: Hash) {
    op.TripOp? && op.hash == h
  }

  /** One past the last lift or collection of `h`; 0 if there is none. */
  function SinceReset(ops: seq<Op>, h: Hash): (k: nat)
    ensures k <= |ops|
  {
    if ops == [] then 0
    else if Resets(ops[|ops| - 1], h) then |ops|
    else SinceReset(ops[..|ops| - 1], h)
  }

  function TripCount(ops: seq<Op>, h: Hash): nat {
    if ops == [] then 0
    else TripCount(ops[..|ops| - 1], h) + if Trips(ops[|ops| - 1], h) then 1 else 0
  }

  lemma AttemptsStep(cfg: Config, b: Books, op: Op, h: Hash)
    ensures Attempts(Apply(cfg, b, op), h) ==
              if Resets(op, h) then 0 else Attempts(b, h) + if Trips(op, h) then 1 else 0
  {
  }

  lemma TripCountStep(ops: seq<Op>, k: nat, h: Hash)
    requires ops != [] && k <= |ops|
    ensures k < |ops| ==> TripCount(ops[k..], h) == TripCount(ops[..|ops| - 1][k..], h) + if Trips(ops[|ops| - 1], h) then 1 else 0
    ensures k == |ops| ==> TripCount(ops[k..], h) == 0
  {
    if k < |ops| {
      assert ops[k..][..|ops| - k - 1] == ops[..|ops| - 1][k..];
    }
  }

  /** The attempts of a hash are the trips since its last lift or collection; nothing else, a probe included, changes them. */
  lemma {:induction false} AttemptsCountTrips(cfg: Config, b: Books, ops: seq<Op>, h: Hash)
    ensures var k := SinceReset(ops, h);
            Attempts(Run(cfg, b, ops), h) == TripCount(ops[k..], h) + if k == 0 then Attempts(b, h) else 0
  {
    if ops != [] {
      var before, op := ops[..|ops| - 1], ops[|ops| - 1];
      AttemptsCountTrips(cfg, b, before, h);
      AttemptsStep(cfg, Run(cfg, b, before), op, h);
      TripCountStep(ops, SinceReset(ops, h), h);
    }
  }

  /** So a trip locks the hash out for the far-future term exactly when more trips than the retries allow have come since the last reset. */
  lemma LockoutIsByTripCount(cfg: Config, b: Books, ops: seq<Op>, op: Op)
    requires ValidConfig(cfg) && op.TripOp? && op.at + cfg.cooldown < MAX_UTC
    ensures var after := Apply(cfg, Run(cfg, b, ops), op).quarantined;
            && op.hash in after
            && (after[op.hash].cooldownUntil == FarFuture(op.at)
                <==> cfg.maxRetries > 0
                     && TripCount(ops[SinceReset(ops, op.hash)..], op.hash)
                        + (if SinceReset(ops, op.hash) == 0 then Attempts(b, op.hash) else 0) >= cfg.maxRetries)
  {
    AttemptsCountTrips(cfg, b, ops, op.hash);
    EscalatesExactlyPastRetries(Entry(Run(cfg, b, ops).quarantined, op.hash), op.trip, op.at, cfg.cooldown, cfg.maxRetries);
  }

  // ---- the grace window ----

  ghost predicate AnchoredSince(b: Books, h: Hash, t: int) {
    h in b.held ==> Anchor(b.held[h]) >= t
  }

  lemma {:induction false} AnchorOnlyAdvances(cfg: Config, b: Books, ops: seq<Op>, h: Hash, t: int)
    requires Keyed(b.held) && AnchoredSince(b, h, t) && LawfulRun(cfg, b, ops) && AllMeasured(Since(t), ops)
    ensures AnchoredSince(Run(cfg, b, ops), h, t)
  {
    if ops != [] {
      var before, op := ops[..|ops| - 1], ops[|ops| - 1];
      AnchorOnlyAdvances(cfg, b, before, h, t);
      RunStaysKeyed(cfg, b, before);
      AnchorStep(cfg, Run(cfg, b, before), op, h, t);
    }
  }

  /** A listed torrent is anchored at its confirmation, or already was later. */
  lemma ConfirmAnchors(cfg: Config, b: Books, catalog: set<Hash>, now: int, h: Hash)
    requires Keyed(b.held) && h in catalog
    ensures AnchoredSince(Apply(cfg, b, Confirm(catalog, now)), h, now)
  {
  }

  lemma AnchorStep(cfg: Config, b: Books, op: Op, h: Hash, t: int)
    requires Keyed(b.held) && AnchoredSince(b, h, t) && Lawful(cfg, b, op) && Measured(Since(t), op)
    ensures AnchoredSince(Apply(cfg, b, op), h, t)
  {
  }

  /**
   * A torrent removed as delisted was listed by no confirmation pass of the preceding grace window,
   * whatever ran between that pass and the removal.
   */
  lemma DelistedOnlyPastGrace(cfg: Config, b: Books, confirm: Op, ops: seq<Op>, gone: Op)
    requires Keyed(b.held) && confirm.Confirm?
    requires gone.Leave? && gone.cause == DeletedFromCatalog && gone.hash in confirm.catalog
    requires var confirmed := Apply(cfg, b, confirm);
             && LawfulRun(cfg, confirmed, ops) && AllMeasured(Since(confirm.at), ops)
             && Lawful(cfg, Run(cfg, confirmed, ops), gone)
    ensures gone.at - confirm.at >= cfg.vanishedTimeout
  {
    AnchorOnlyAdvances(cfg, Apply(cfg, b, confirm), ops, gone.hash, confirm.at);
  }

  // ---- displacement chains ----

  ghost predicate LeavesSeedersAlone(ops: seq<Op>, h: Hash) {
    forall op :: op in ops ==> !(op.Refresh? && op.hash == h) && !(op.Enter? && op.t.hash == h)
  }

  lemma {:induction false} SeedersPersist(cfg: Config, b: Books, ops: seq<Op>, h: Hash)
    requires Keyed(b.held) && LeavesSeedersAlone(ops, h)
    ensures var after := Run(cfg, b, ops).held;
            h in after ==> h in b.held && after[h].seeders == b.held[h].seeders
  {
    if ops != [] {
      var before, op := ops[..|ops| - 1], ops[|ops| - 1];
      assert op in ops && forall o :: o in before ==> o in ops;
      SeedersPersist(cfg, b, before, h);
      RunStaysKeyed(cfg, b, before);
    }
  }

  lemma {:induction false} DrawnMember(ts: seq<Torrent>, held: map<Hash, Torrent>, h: Hash)
    requires Drawn(ts, held) && h in HashSet(ts)
    ensures h in held && exists i :: 0 <= i < |ts| && ts[i].hash == h && ts[i] == held[h]
  {
    var rest, t := ts[..|ts| - 1], ts[|ts| - 1];
    if t.hash != h {
      DrawnMember(rest, held, h);
      var i :| 0 <= i < |rest| && rest[i].hash == h && rest[i] == held[h];
      assert ts[i] == rest[i];
    }
  }

  /** `second` takes out what `first` brought in, with no other entry or refresh of that hash between. */
  ghost predicate Displaces(ops: seq<Op>, i: nat, j: nat) {
    && i < j < |ops|
    && ops[i].Enter? && ops[j].Enter?
    && ops[i].t.hash in HashSet(ops[j].displaced)
    && LeavesSeedersAlone(ops[i + 1..j], ops[i].t.hash)
  }

  lemma {:induction false} LawfulAt(cfg: Config, b: Books, ops: seq<Op>, j: nat)
    requires LawfulRun(cfg, b, ops) && j < |ops|
    ensures Lawful(cfg, Run(cfg, b, ops[..j]), ops[j])
  {
    if j < |ops| - 1 {
      var front := ops[..|ops| - 1];
      LawfulAt(cfg, b, front, j);
      assert front[..j] == ops[..j] && front[j] == ops[j];
    }
  }

  lemma EnteredSeeders(cfg: Config, b: Books, op: Op)
    requires op.Enter?
    ensures var after := Apply(cfg, b, op).held;
            op.t.hash in after ==> after[op.t.hash] == op.t
  {
  }

  /** What was entered at `i`, if still held at `j`, has the seeders it was entered with. */
  lemma EnteredPersists(cfg: Config, b: Books, ops: seq<Op>, i: nat, j: nat)
    requires Keyed(b.held) && i < j <= |ops| && ops[i].Enter? && LeavesSeedersAlone(ops[i + 1..j], ops[i].t.hash)
    ensures var held := Run(cfg, b, ops[..j]).held;
            ops[i].t.hash in held ==> held[ops[i].t.hash].seeders == ops[i].t.seeders
  {
    var h := ops[i].t.hash;
    var first, rest := ops[..i + 1], ops[i + 1..j];
    assert ops[..j] == first + rest;
    assert first == ops[..i] + [ops[i]];
    RunConcat(cfg, b, first, rest);
    RunStaysKeyed(cfg, b, first);
    SeedersPersist(cfg, Run(cfg, b, first), rest, h);
    RunSnoc(cfg, b, ops[..i], ops[i]);
    EnteredSeeders(cfg, Run(cfg, b, ops[..i]), ops[i]);
  }

  /** What a lawful entry displaces has at least the margin more seeders than it. */
  lemma DisplacedClears(cfg: Config, b: Books, op: Op, h: Hash)
    requires op.Enter? && Lawful(cfg, b, op) && h in HashSet(op.displaced)
    ensures h in b.held && b.held[h].seeders - cfg.minSeedMargin >= op.t.seeders
  {
    DrawnMember(op.displaced, b.held, h);
  }

  /** One link of a chain drops the seeders by at least the margin. */
  lemma LinkDropsSeeders(cfg: Config, b: Books, ops: seq<Op>, i: nat, j: nat)
    requires Keyed(b.held) && LawfulRun(cfg, b, ops) && Displaces(ops, i, j)
    ensures SeedersAt(ops, i) >= SeedersAt(ops, j) + cfg.minSeedMargin
  {
    LawfulAt(cfg, b, ops, j);
    DisplacedClears(cfg, Run(cfg, b, ops[..j]), ops[j], ops[i].t.hash);
    EnteredPersists(cfg, b, ops, i, j);
  }

  /** The seeders of what operation `i` brought in. */
  function SeedersAt(ops: seq<Op>, i: nat): nat {
    if i < |ops| && ops[i].Enter? then ops[i].t.seeders else 0
  }

  ghost predicate Chain(ops: seq<Op>, links: seq<nat>) {
    |links| >= 2 ==> Chain(ops, links[..|links| - 1]) && Displaces(ops, links[|links| - 2], links[|links| - 1])
  }

  /** `n` margins. */
  function Fall(n: nat, margin: int): int {
    if n == 0 then 0 else Fall(n - 1, margin) + margin
  }

  lemma {:induction false} FallIsProduct(n: nat, margin: int)
    ensures Fall(n, margin) == n * margin
  {
    if n > 0 {
      FallIsProduct(n - 1, margin);
      assert n * margin == (n - 1) * margin + margin;
    }
  }

  ghost predicate Descends(ops: seq<Op>, links: seq<nat>, margin: int) {
    |links| >= 2 ==>
      && Descends(ops, links[..|links| - 1], margin)
      && SeedersAt(ops, links[|links| - 2]) >= SeedersAt(ops, links[|links| - 1]) + margin
  }

  ghost predicate LinksDrop(ops: seq<Op>, margin: int) {
    forall i: nat, j: nat :: Displaces(ops, i, j) ==> SeedersAt(ops, i) >= SeedersAt(ops, j) + margin
  }

  lemma EveryLinkDrops(cfg: Config, b: Books, ops: seq<Op>)
    requires Keyed(b.held) && LawfulRun(cfg, b, ops)
    ensures LinksDrop(ops, cfg.minSeedMargin)
  {
    forall i: nat, j: nat | Displaces(ops, i, j) ensures SeedersAt(ops, i) >= SeedersAt(ops, j) + cfg.minSeedMargin {
      LinkDropsSeeders(cfg, b, ops, i, j);
    }
  }

  lemma {:induction false} ChainDescends(ops: seq<Op>, links: seq<nat>, margin: int)
    requires LinksDrop(ops, margin) && Chain(ops, links)
    ensures Descends(ops, links, margin)
  {
    if |links| >= 2 {
      ChainDescends(ops, links[..|links| - 1], margin);
    }
  }

  lemma {:induction false} DescentFalls(ops: seq<Op>, links: seq<nat>, margin: int)
    requires links != [] && Descends(ops, links, margin)
    ensures SeedersAt(ops, links[0]) >= SeedersAt(ops, links[|links| - 1]) + Fall(|links| - 1, margin)
  {
    var n := |links|;
    if n >= 2 {
      var front := links[..n - 1];
      assert front[0] == links[0] && front[n - 2] == links[n - 2];
      DescentFalls(ops, front, margin);
    }
  }

  /**
   * Seeders fall by at least the margin along every displacement chain, so with a positive margin a
   * cascade is no longer than the seeders of its first torrent allow.
   */
  lemma ChainsAreBounded(cfg: Config, b: Books, ops: seq<Op>, links: seq<nat>)
    requires Keyed(b.held) && LawfulRun(cfg, b, ops) && links != [] && Chain(ops, links)
    ensures SeedersAt(ops, links[0]) >= SeedersAt(ops, links[|links| - 1]) + (|links| - 1) * cfg.minSeedMargin
  {
    EveryLinkDrops(cfg, b, ops);
    DroppingChain(ops, links, cfg.minSeedMargin);
  }

  lemma DroppingChain(ops: seq<Op>, links: seq<nat>, margin: int)
    requires LinksDrop(ops, margin) && links != [] && Chain(ops, links)
    ensures SeedersAt(ops, links[0]) >= SeedersAt(ops, links[|links| - 1]) + (|links| - 1) * margin
  {
    ChainDescends(ops, links, margin);
    DescentFalls(ops, links, margin);
    FallIsProduct(|links| - 1, margin);
  }
}
