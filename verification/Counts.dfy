/** The running counts a scan and a pass act by: exactly the number held, at every moment. */
module Counts {
  import opened Words
  import opened Holdings
  import opened Acting
  import opened Entries
  import opened Maintenance
  import opened Daemon

  predicate NoneHeld(cands: seq<Candidate>, held: map<Hash, Torrent>) {
    forall i :: 0 <= i < |cands| ==> cands[i].hash !in held
  }

  lemma OneMoreCounted(cfg: Config, p: Progress, c: Candidate, floor: nat, env: Env)
    requires ValidConfig(cfg) && Keyed(p.books.held) && Honest(env) && p.count == |p.books.held| && c.hash !in p.books.held
    ensures var q := ActOne(cfg, p, c, floor, env);
            q.count == |q.books.held| && q.books.held.Keys <= p.books.held.Keys + {c.hash}
  {
    CountStaysExact(cfg, p.books, p.count, c, floor, env);
    EntryIsTheCandidate(cfg, p.books, p.count, c, floor, env, true);
  }

  /** While candidates that were not held are acted on, the running count is the number held, after each of them. */
  lemma {:induction false} CountedExactly(cfg: Config, b: Books, cands: seq<Candidate>, floor: nat, world: Hash -> Env)
    requires ValidConfig(cfg) && Keyed(b.held) && Answers(world, Anything) && HashesDiffer(cands) && NoneHeld(cands, b.held)
    ensures var p := ActAll(cfg, b, |b.held|, cands, floor, world);
            p.count == |p.books.held| && p.books.held.Keys <= b.held.Keys + CandidateHashes(cands)
  {
    if cands != [] {
      var front, c := cands[..|cands| - 1], cands[|cands| - 1];
      CountedExactly(cfg, b, front, floor, world);
      ActAllStaysOnCourse(cfg, b, |b.held|, front, floor, world, Anything);
      var p := ActAll(cfg, b, |b.held|, front, floor, world);
      RunStaysKeyed(cfg, b, p.ops);
      OneMoreCounted(cfg, p, c, floor, world(c.hash));
    }
  }

  /** So a scan whose arrivals were not held ends with a count that is exactly what it holds. */
  lemma ScanCountsExactly(cfg: Config, b: Books, s: ScanInput)
    requires ValidConfig(cfg) && Keyed(b.held) && Answers(s.world, Anything) && NoneHeld(s.arrivals, b.held)
    ensures ActingOf(cfg, b, s).count == |ActingOf(cfg, b, s).books.held|
  {
    var done := ActedOn(cfg, s.arrivals);
    ScanCoversTopWindow(cfg, s.arrivals);
    forall i | 0 <= i < |done| ensures done[i].hash !in b.held {
      assert done[i] in done;
    }
    CountedExactly(cfg, b, done, s.floor, s.world);
  }

  lemma RearmingMovesNothing(cfg: Config, p: Progress, h: Hash, now: int)
    ensures Rearmed(cfg, p, h, now).count == p.count && Rearmed(cfg, p, h, now).books.held == p.books.held
  {
  }

  lemma OneProbeCounted(cfg: Config, p: Progress, h: Hash, listed: set<Hash>, answer: ProbeAnswer, floor: nat, env: Env, now: int)
    requires ValidConfig(cfg) && Keyed(p.books.held) && Honest(env) && p.count == |p.books.held|
    ensures var q := ProbeOne(cfg, p, h, listed, answer, floor, env, now);
            q.count == |q.books.held|
  {
    if Probes(p, h, listed, answer) {
      var c := ProbeCandidate(h, answer);
      OneMoreCounted(cfg, p, c, floor, env);
      RearmingMovesNothing(cfg, ActOne(cfg, p, c, floor, env), h, now);
    }
  }

  /** And the re-probes, which skip what is held, keep theirs exact whatever is due. */
  lemma {:induction false} ProbesCountExactly(cfg: Config, b: Books, order: seq<Hash>, due: set<Hash>, listed: set<Hash>,
                                              answers: Hash -> ProbeAnswer, floor: nat, world: Hash -> Env, now: int)
    requires ValidConfig(cfg) && Keyed(b.held) && Answers(world, Anything)
    requires Ascending(order, due) && AllLapsed(b, due, now)
    ensures var p := ProbeAll(cfg, b, |b.held|, order, listed, answers, floor, world, now);
            p.count == |p.books.held|
  {
    if order != [] {
      var front, h := order[..|order| - 1], order[|order| - 1];
      AscendingStep(b, order, due, now);
      ProbesCountExactly(cfg, b, front, due - {h}, listed, answers, floor, world, now);
      ProbeAllOnCourse(cfg, b, |b.held|, front, due - {h}, listed, answers, floor, world, now, Anything);
      var p := ProbeAll(cfg, b, |b.held|, front, listed, answers, floor, world, now);
      RunStaysKeyed(cfg, b, p.ops);
      OneProbeCounted(cfg, p, h, listed, answers(h), floor, world(h), now);
    }
  }

  lemma PassCountsExactly(cfg: Config, b: Books, catalog: Option<set<Hash>>, p: PassInput)
    requires ValidConfig(cfg) && Keyed(b.held) && Answers(p.world, Anything)
    ensures ProbesOf(cfg, b, catalog, p).count == |ProbesOf(cfg, b, catalog, p).books.held|
  {
    if catalog.Some? {
      var due := ToProbe(b, p.probeAt);
      ProbesCountExactly(cfg, b, SortedHashes(due), due, catalog.value, p.probes, p.floor, p.world, p.probeAt);
    }
  }
}
