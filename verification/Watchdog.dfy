/** What a watchdog pass does to each session torrent and each entry: what is swept, re-probed, re-armed and tripped. */
module Watchdog {
  import opened Words
  import opened Quarantines
  import opened Holdings
  import opened StateFile
  import opened Acting
  import opened Entries
  import opened Maintenance
  import opened Daemon

  // ---- what one operation does ----

  /** A trip takes the torrent out, enters the hash with one attempt more, and records the departure of a held one. */
  lemma TripExactly(cfg: Config, b: Books, h: Hash, trip: Trip, at: int, g: Hash)
    requires ValidConfig(cfg) && at <= MAX_UTC && (h in b.held ==> b.held[h].hash == h)
    ensures var after := Apply(cfg, b, TripOp(h, trip, at));
            && (g in after.held <==> g in b.held && g != h)
            && (g in after.held ==> after.held[g] == b.held[g])
            && h in after.quarantined
            && after.quarantined[h].attempts == (if h in b.quarantined then b.quarantined[h].attempts else 0) + 1
            && after.quarantined[h].quarantinedAt == at && after.quarantined[h].wasted == trip.wasted
            && (g != h ==> (g in after.quarantined <==> g in b.quarantined))
            && (g != h && g in after.quarantined ==> after.quarantined[g] == b.quarantined[g])
            && after.ledger == b.ledger
                 + (if h in b.held then [Remove(h, b.held[h].size, b.held[h].seeders, b.held[h].location, Quarantined)] else [])
  {
    EscalatesExactlyPastRetries(Entry(b.quarantined, h), trip, at, cfg.cooldown, cfg.maxRetries);
  }

  /** Re-arming moves the cooldown to the longer of the cooldown and the watchdog's interval from now, and nothing else. */
  lemma RearmExactly(cfg: Config, b: Books, h: Hash, at: int)
    requires h in b.quarantined
    ensures var after := Apply(cfg, b, Rearm(h, at));
            && after.held == b.held && after.ledger == b.ledger && after.quarantined.Keys == b.quarantined.Keys
            && (forall g :: g in b.quarantined && g != h ==> after.quarantined[g] == b.quarantined[g])
            && after.quarantined[h].attempts == b.quarantined[h].attempts
            && after.quarantined[h].quarantinedAt == b.quarantined[h].quarantinedAt
            && after.quarantined[h].wasted == b.quarantined[h].wasted
            && (at + cfg.cooldown <= MAX_UTC && at + cfg.checkInterval <= MAX_UTC ==>
                  after.quarantined[h].cooldownUntil == at + (if cfg.cooldown >= cfg.checkInterval then cfg.cooldown else cfg.checkInterval))
  {
  }

  // ---- the watchdog's sweep ----

  /** Seen is what the session holds. */
  lemma {:induction false} SweepSees(watch: map<Hash, WatchState>, session: seq<SessionTorrent>, registered: set<Hash>, threshold: nat, minWindows: nat, h: Hash)
    ensures h in SweepAll(watch, session, registered, threshold, minWindows).seen <==> exists t :: t in session && t.hash == h
  {
    if session != [] {
      var before, t := session[..|session| - 1], session[|session| - 1];
      SweepSees(watch, before, registered, threshold, minWindows, h);
      assert session == before + [t];
    }
  }

  /** Progress is reported for exactly the live, unfinished torrents with verified bytes, and is those bytes. */
  lemma {:induction false} SweepReportsProgress(watch: map<Hash, WatchState>, session: seq<SessionTorrent>, registered: set<Hash>, threshold: nat, minWindows: nat, v: Verified)
    ensures v in SweepAll(watch, session, registered, threshold, minWindows).progress
            <==> v.checked > 0 && exists t :: t in session && t.hash == v.hash && t.checked == v.checked && !t.finished && t.fetched != None
  {
    if session != [] {
      var before, t := session[..|session| - 1], session[|session| - 1];
      SweepReportsProgress(watch, before, registered, threshold, minWindows, v);
      assert session == before + [t];
    }
  }

  /** A trip names the torrent of the session whose reading it is. */
  lemma {:induction false} SweepTripsAreReadings(watch: map<Hash, WatchState>, session: seq<SessionTorrent>, registered: set<Hash>, threshold: nat, minWindows: nat, x: Tripped)
    ensures x in SweepAll(watch, session, registered, threshold, minWindows).trips
            <==> exists k :: 0 <= k < |session| && TripsAt(watch, session, registered, threshold, minWindows, k, x)
  {
    if session != [] {
      var before, n := session[..|session| - 1], |session| - 1;
      SweepTripsAreReadings(watch, before, registered, threshold, minWindows, x);
      forall k | 0 <= k < n
        ensures TripsAt(watch, session, registered, threshold, minWindows, k, x) <==> TripsAt(watch, before, registered, threshold, minWindows, k, x)
      {
        assert session[..k] == before[..k];
      }
      assert TripsAt(watch, session, registered, threshold, minWindows, n, x) <==>
               var s, t := SweepAll(watch, before, registered, threshold, minWindows), session[n];
               !t.finished && t.fetched != None
               && Verdict(Watched(s.watch, t.hash), t.checked, t.fetched.value, threshold, minWindows) == Some(x.trip) && x.hash == t.hash;
    }
  }

  predicate TripsAt(watch: map<Hash, WatchState>, session: seq<SessionTorrent>, registered: set<Hash>, threshold: nat, minWindows: nat, k: int, x: Tripped)
    requires 0 <= k < |session|
  {
    var t := session[k];
    && x.hash == t.hash && !t.finished && t.fetched != None
    && Verdict(Watched(SweepAll(watch, session[..k], registered, threshold, minWindows).watch, t.hash), t.checked, t.fetched.value, threshold, minWindows)
       == Some(x.trip)
  }

  // ---- the re-probes ----

  /**
   * Of the entries due, exactly those whose hash is listed and whose metadata and scrape were had are re-armed;
   * every other entry, and the attempts of all, are as they were.
   */
  lemma {:induction false} ReprobedExactly(cfg: Config, b: Books, count: nat, order: seq<Hash>, due: set<Hash>, listed: set<Hash>,
                                           answers: Hash -> ProbeAnswer, floor: nat, world: Hash -> Env, now: int, h: Hash)
    requires ValidConfig(cfg) && Keyed(b.held) && Answers(world, Anything) && |b.held| <= count
    requires Ascending(order, due) && AllLapsed(b, due, now) && (forall g :: g in due ==> g !in b.held)
    requires h in b.quarantined
    ensures var after := ProbeAll(cfg, b, count, order, listed, answers, floor, world, now).books.quarantined;
            && after.Keys == b.quarantined.Keys
            && after[h].attempts == b.quarantined[h].attempts && after[h].wasted == b.quarantined[h].wasted
            && after[h].quarantinedAt == b.quarantined[h].quarantinedAt
            && (h in due && h in listed && answers(h).meta != None && answers(h).seeders != None ==>
                  after[h].cooldownUntil == RearmedUntil(cfg, now))
            && (h !in due || h !in listed || answers(h).meta == None || answers(h).seeders == None ==> after[h] == b.quarantined[h])
  {
    if order != [] {
      var before, g := order[..|order| - 1], order[|order| - 1];
      AscendingStep(b, order, due, now);
      OnlyProbedEnter(cfg, b, count, before, due - {g}, listed, answers, floor, world, now, g);
      ReprobedExactly(cfg, b, count, before, due - {g}, listed, answers, floor, world, now, h);
      ProbeAllOnCourse(cfg, b, count, before, due - {g}, listed, answers, floor, world, now, Anything);
      var p := ProbeAll(cfg, b, count, before, listed, answers, floor, world, now);
      RunStaysKeyed(cfg, b, p.ops);
      ProbeOneExactly(cfg, p, g, listed, answers(g), floor, world(g), now);
      assert g !in p.books.held && order == before + [g];
    }
  }

  /** And nothing enters but a hash that was due. */
  lemma {:induction false} OnlyProbedEnter(cfg: Config, b: Books, count: nat, order: seq<Hash>, due: set<Hash>, listed: set<Hash>,
                                           answers: Hash -> ProbeAnswer, floor: nat, world: Hash -> Env, now: int, g: Hash)
    requires ValidConfig(cfg) && Keyed(b.held) && Answers(world, Anything) && |b.held| <= count
    requires Ascending(order, due) && AllLapsed(b, due, now)
    ensures g in ProbeAll(cfg, b, count, order, listed, answers, floor, world, now).books.held && g !in b.held ==> g in due
  {
    if order != [] {
      var before, h := order[..|order| - 1], order[|order| - 1];
      AscendingStep(b, order, due, now);
      OnlyProbedEnter(cfg, b, count, before, due - {h}, listed, answers, floor, world, now, g);
      ProbeAllOnCourse(cfg, b, count, before, due - {h}, listed, answers, floor, world, now, Anything);
      var p := ProbeAll(cfg, b, count, before, listed, answers, floor, world, now);
      RunStaysKeyed(cfg, b, p.ops);
      AscendingHas(order, due, h);
      ProbeOneExactly(cfg, p, h, listed, answers(h), floor, world(h), now);
    }
  }

  /** A probe enters with the seeders its own scrape found. */
  lemma ProbeOneExactly(cfg: Config, p: Progress, g: Hash, listed: set<Hash>, answer: ProbeAnswer, floor: nat, env: Env, now: int)
    requires ValidConfig(cfg) && Keyed(p.books.held) && Honest(env) && |p.books.held| <= p.count && g in p.books.quarantined
    ensures var q := ProbeOne(cfg, p, g, listed, answer, floor, env, now);
            && q.books.quarantined ==
                 (if g !in p.books.held && g in listed && answer.meta != None && answer.seeders != None
                  then p.books.quarantined[g := p.books.quarantined[g].(cooldownUntil := RearmedUntil(cfg, now))] else p.books.quarantined)
            && (forall h :: h in q.books.held && h !in p.books.held ==> h == g)
            && (g in q.books.held && g !in p.books.held ==>
                  && answer.seeders.Some? && q.books.held[g].seeders == answer.seeders.value
                  && env.meta.Some? && q.books.held[g].size == env.meta.value.size)
  {
    if Probes(p, g, listed, answer) {
      var c := ProbeCandidate(g, answer);
      EntryIsTheCandidate(cfg, p.books, p.count, c, floor, env, true);
      ActKeepsRegistry(cfg, p, c, floor, env, Anything);
      DecisionIsLawful(cfg, p.books, p.count, c, floor, env, true);
    }
  }

  /**
   * A pass re-arms exactly the entries past their cooldown, not held, in the catalog last fetched or else the one
   * loaded for it, and answered with metadata and a scrape; every other
   * entry is as the collection left it.
   */
  lemma PassReprobesExactly(cfg: Config, w: World, p: PassInput, h: Hash)
    requires ValidConfig(cfg) && Answers(p.world, Anything) && Keyed(AfterCollection(cfg, w, p).held)
    requires h in AfterCollection(cfg, w, p).quarantined
    ensures var b, after := AfterCollection(cfg, w, p), AfterProbes(cfg, w, p);
            var catalog := if w.lastCatalog != None then w.lastCatalog else p.loaded;
            var probed := b.quarantined[h].cooldownUntil <= p.probeAt && h !in b.held
                          && catalog != None && h in catalog.value && p.probes(h).meta != None && p.probes(h).seeders != None;
            && h in after.quarantined
            && (if probed then after.quarantined[h].cooldownUntil == RearmedUntil(cfg, p.probeAt)
                               && after.quarantined[h].attempts == b.quarantined[h].attempts
                else after.quarantined[h] == b.quarantined[h])
  {
    var b, catalog := AfterCollection(cfg, w, p), ProbeCatalog(w, p);
    if catalog.Some? {
      var due := ToProbe(b, p.probeAt);
      ReprobedExactly(cfg, b, |b.held|, SortedHashes(due), due, catalog.value, p.probes, p.floor, p.world, p.probeAt, h);
    }
  }

  /** The trips of a pass take out and enter exactly the hashes they name. */
  lemma {:induction false} TripsTakeExactly(cfg: Config, b: Books, trips: seq<Tripped>, at: int, g: Hash)
    requires ValidConfig(cfg) && at <= MAX_UTC && Keyed(b.held)
    ensures var after := Run(cfg, b, TripOps(trips, at));
            var named := exists x :: x in trips && x.hash == g;
            && Keyed(after.held)
            && (g in after.held <==> g in b.held && !named)
            && (g in after.held ==> after.held[g] == b.held[g])
            && (g in after.quarantined <==> g in b.quarantined || named)
            && (g in b.quarantined && !named ==> after.quarantined[g] == b.quarantined[g])
  {
    if trips != [] {
      var before, x := trips[..|trips| - 1], trips[|trips| - 1];
      TripsTakeExactly(cfg, b, before, at, g);
      assert trips == before + [x];
      var mid := Run(cfg, b, TripOps(before, at));
      RunSnoc(cfg, b, TripOps(before, at), TripOp(x.hash, x.trip, at));
      TripExactly(cfg, mid, x.hash, x.trip, at, g);
    }
  }
}
