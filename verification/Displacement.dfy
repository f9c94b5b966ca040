/** `select_displaceable`: which held torrents of one location make way for a candidate. */
module Displacement {
  import opened Words
  import opened Sorting
  import opened Holdings
  import Ram
  import Selector

  predicate Clears(t: Torrent, candidateSeeders: nat, margin: int) {
    t.seeders - margin >= candidateSeeders
  }

  function Qualifying(ts: seq<Torrent>, candidateSeeders: nat, margin: int): seq<Torrent> {
    Filter(ts, (t: Torrent) => Clears(t, candidateSeeders, margin))
  }

  function ScoreOf(t: Torrent, cfg: Config): real {
    Selector.EvictionScore(Selector.Footprint(t.size, t.pieces), t.seeders, cfg.sizeBias,
                           Ram.PeerLimitForBudget(cfg.ramBudget), cfg.power)
  }

  function EvictedFirst(cfg: Config): (Torrent, Torrent) -> bool {
    (a: Torrent, b: Torrent) => ScoreOf(a, cfg) <= ScoreOf(b, cfg)
  }

  function EvictionOrder(ts: seq<Torrent>, candidateSeeders: nat, cfg: Config): seq<Torrent> {
    Sort(Qualifying(ts, candidateSeeders, cfg.minSeedMargin), EvictedFirst(cfg))
  }

  function Credit(cfg: Config): Torrent -> nat {
    FreedPrice(Ram.PeerLimitForBudget(cfg.ramBudget))
  }

  predicate Covers(ts: seq<Torrent>, need: nat, ram: nat, cfg: Config) {
    SumSeq(ts, Size()) >= need && SumSeq(ts, Credit(cfg)) >= ram
  }

  /** The shortest non-empty prefix longer than `k` that covers both needs. */
  function ShortestFrom(order: seq<Torrent>, k: nat, need: nat, ram: nat, cfg: Config): (n: Option<nat>)
    requires k <= |order|
    ensures n.Some? ==> k < n.value <= |order| && Covers(order[..n.value], need, ram, cfg)
    ensures forall m :: k < m < (if n.Some? then n.value else |order| + 1) ==> !Covers(order[..m], need, ram, cfg)
    decreases |order| - k
  {
    if k == |order| then None
    else if Covers(order[..k + 1], need, ram, cfg) then Some(k + 1)
    else ShortestFrom(order, k + 1, need, ram, cfg)
  }

  function Displaceable(ts: seq<Torrent>, candidateSeeders: nat, need: nat, ram: nat, cfg: Config): Option<seq<Torrent>> {
    var order := EvictionOrder(ts, candidateSeeders, cfg);
    match ShortestFrom(order, 0, need, ram, cfg)
    case Some(n) => Some(order[..n])
    case None => None
  }

  lemma SumSeqSnoc(ts: seq<Torrent>, k: nat, f: Torrent -> nat)
    requires k < |ts|
    ensures SumSeq(ts[..k + 1], f) == SumSeq(ts[..k], f) + f(ts[k])
  {
    assert ts[..k + 1][..k] == ts[..k];
  }

  function Tally(ts: seq<Torrent>, f: Torrent -> nat): nat {
    Min(U64_MAX, SumSeq(ts, f))
  }

  lemma TallyNext(ts: seq<Torrent>, k: nat, f: Torrent -> nat)
    requires k < |ts|
    ensures Tally(ts[..k + 1], f) == SatAdd64(Tally(ts[..k], f), f(ts[k]))
  {
    SumSeqSnoc(ts, k, f);
  }

  lemma TallyNextOf(ts: seq<Torrent>, k: nat, cfg: Config)
    requires k < |ts|
    ensures Tally(ts[..k + 1], Size()) == SatAdd64(Tally(ts[..k], Size()), ts[k].size)
    ensures Tally(ts[..k + 1], Credit(cfg))
         == SatAdd64(Tally(ts[..k], Credit(cfg)), Ram.TorrentRam(Max(ts[k].pieces, 1), Ram.PeerLimitForBudget(cfg.ramBudget)))
  {
    TallyNext(ts, k, Size());
    TallyNext(ts, k, Credit(cfg));
  }

  /** Saturated sums answer the same question, the needs being words themselves. */
  lemma TallyDecides(ts: seq<Torrent>, need: nat, ram: nat, cfg: Config)
    requires need <= U64_MAX && ram <= U64_MAX
    ensures Covers(ts, need, ram, cfg) <==> Tally(ts, Size()) >= need && Tally(ts, Credit(cfg)) >= ram
  {
  }

  /** `select_displaceable`: the sums saturate at 64 bits, and so do both needs. */
  method SelectDisplaceable(inLocation: seq<Torrent>, candidateSeeders: nat, need: nat, ram: nat, cfg: Config)
    returns (displaced: Option<seq<Torrent>>)
    requires need <= U64_MAX && ram <= U64_MAX
    ensures displaced == Displaceable(inLocation, candidateSeeders, need, ram, cfg)
  {
    var qualifying := Qualifying(inLocation, candidateSeeders, cfg.minSeedMargin);
    if qualifying == [] {
      return None;
    }
    qualifying := Sort(qualifying, EvictedFirst(cfg));
    var peerLimit := Ram.PeerLimitForBudget(cfg.ramBudget);
    var chosen, freed, freedRam := [], 0, 0;
    for k := 0 to |qualifying|
      invariant chosen == qualifying[..k]
      invariant freed == Tally(chosen, Size()) && freedRam == Tally(chosen, Credit(cfg))
      invariant ShortestFrom(qualifying, 0, need, ram, cfg) == ShortestFrom(qualifying, k, need, ram, cfg)
    {
      var h := qualifying[k];
      TallyNextOf(qualifying, k, cfg);
      freed := SatAdd64(freed, h.size);
      freedRam := SatAdd64(freedRam, Ram.TorrentRam(Max(h.pieces, 1), peerLimit));
      chosen := chosen + [h];
      TallyDecides(chosen, need, ram, cfg);
      assert chosen == qualifying[..k + 1];
      if freed >= need && freedRam >= ram {
        return Some(chosen);
      }
    }
    return None;
  }

  // ---- soundness and completeness ----

  lemma {:induction false} SumSeqConcat(a: seq<Torrent>, b: seq<Torrent>, f: Torrent -> nat)
    ensures SumSeq(a + b, f) == SumSeq(a, f) + SumSeq(b, f)
  {
    if b == [] {
      assert a + b == a;
    } else {
      SumSeqConcat(a, b[..|b| - 1], f);
      assert (a + b)[..|a + b| - 1] == a + b[..|b| - 1];
    }
  }

  function Position(ts: seq<Torrent>, t: Torrent): (i: nat)
    requires t in ts
    ensures i < |ts| && ts[i] == t
  {
    if ts[0] == t then 0 else 1 + Position(ts[1..], t)
  }

  lemma PickOut(ts: seq<Torrent>, t: Torrent, f: Torrent -> nat) returns (rest: seq<Torrent>)
    requires t in ts
    ensures multiset(ts) == multiset(rest) + multiset{t}
    ensures SumSeq(ts, f) == SumSeq(rest, f) + f(t)
  {
    var i := Position(ts, t);
    var a, b := ts[..i], ts[i + 1..];
    rest := a + b;
    assert ts == a + ([t] + b);
    SumSeqConcat(a, [t] + b, f);
    SumSeqConcat([t], b, f);
    SumSeqConcat(a, b, f);
    assert SumSeq([t], f) == SumSeq([], f) + f(t);
  }

  lemma CancelMember(a: multiset<Torrent>, b: multiset<Torrent>, t: Torrent)
    requires a + multiset{t} <= b + multiset{t}
    ensures a <= b
  {
    forall x ensures a[x] <= b[x] {
      assert (a + multiset{t})[x] <= (b + multiset{t})[x];
    }
  }

  /** What a part of a collection adds up to, the whole does too. */
  lemma {:induction false} SumOfPart(part: seq<Torrent>, whole: seq<Torrent>, f: Torrent -> nat)
    requires multiset(part) <= multiset(whole)
    ensures SumSeq(part, f) <= SumSeq(whole, f)
  {
    if part != [] {
      var rest, t := part[..|part| - 1], part[|part| - 1];
      assert part == rest + [t];
      assert multiset(part) == multiset(rest) + multiset{t};
      assert t in multiset(part);
      var others := PickOut(whole, t, f);
      CancelMember(multiset(rest), multiset(others), t);
      SumOfPart(rest, others, f);
    }
  }

  lemma OrderRearranges(ts: seq<Torrent>, candidateSeeders: nat, cfg: Config)
    ensures multiset(EvictionOrder(ts, candidateSeeders, cfg)) == multiset(Qualifying(ts, candidateSeeders, cfg.minSeedMargin))
    ensures Sorted(EvictionOrder(ts, candidateSeeders, cfg), EvictedFirst(cfg))
    ensures forall t :: t in EvictionOrder(ts, candidateSeeders, cfg) ==> t in ts && Clears(t, candidateSeeders, cfg.minSeedMargin)
  {
    var q := Qualifying(ts, candidateSeeders, cfg.minSeedMargin);
    SortPermutes(q, EvictedFirst(cfg));
    SortMembers(q, EvictedFirst(cfg));
    SortSorts(q, EvictedFirst(cfg));
  }

  /**
   * The choice is the shortest prefix of the eviction order that pays both needs: it pays them,
   * nothing left behind goes strictly before anything taken, and it does not pay without its last member.
   */
  lemma ChoiceIsShortestPayingPrefix(ts: seq<Torrent>, candidateSeeders: nat, need: nat, ram: nat, cfg: Config, chosen: seq<Torrent>)
    requires Displaceable(ts, candidateSeeders, need, ram, cfg) == Some(chosen)
    ensures chosen != [] && chosen <= EvictionOrder(ts, candidateSeeders, cfg)
    ensures Covers(chosen, need, ram, cfg)
    ensures |chosen| > 1 ==> !Covers(chosen[..|chosen| - 1], need, ram, cfg)
    ensures Sorted(EvictionOrder(ts, candidateSeeders, cfg), EvictedFirst(cfg))
    ensures forall t :: t in chosen ==> t in ts && Clears(t, candidateSeeders, cfg.minSeedMargin)
  {
    OrderRearranges(ts, candidateSeeders, cfg);
    var order := EvictionOrder(ts, candidateSeeders, cfg);
    var n := ShortestFrom(order, 0, need, ram, cfg).value;
    assert order[..n][..n - 1] == order[..n - 1];
    PrefixMembers(order, n);
  }

  /** What stays behind, though it would have qualified, scores no lower than what goes; the last to go scores highest. */
  lemma EvictsLowestScores(ts: seq<Torrent>, candidateSeeders: nat, need: nat, ram: nat, cfg: Config, chosen: seq<Torrent>, t: Torrent)
    requires Displaceable(ts, candidateSeeders, need, ram, cfg) == Some(chosen) && t in chosen
    ensures var peers := Ram.PeerLimitForBudget(cfg.ramBudget);
            var score := Selector.EvictionScore(Selector.Footprint(t.size, t.pieces), t.seeders, cfg.sizeBias, peers, cfg.power);
            && (forall u :: u in ts && u.seeders - cfg.minSeedMargin >= candidateSeeders && u !in chosen ==>
                  score <= Selector.EvictionScore(Selector.Footprint(u.size, u.pieces), u.seeders, cfg.sizeBias, peers, cfg.power))
            && var last := chosen[|chosen| - 1];
               score <= Selector.EvictionScore(Selector.Footprint(last.size, last.pieces), last.seeders, cfg.sizeBias, peers, cfg.power)
  {
    forall u | u in ts && u.seeders - cfg.minSeedMargin >= candidateSeeders && u !in chosen
      ensures ScoreOf(t, cfg) <= ScoreOf(u, cfg)
    {
      EvictedEarlier(ts, candidateSeeders, need, ram, cfg, chosen, t, u);
    }
    EvictedEarlier(ts, candidateSeeders, need, ram, cfg, chosen, t, t);
  }

  lemma EvictedEarlier(ts: seq<Torrent>, candidateSeeders: nat, need: nat, ram: nat, cfg: Config, chosen: seq<Torrent>, t: Torrent, u: Torrent)
    requires Displaceable(ts, candidateSeeders, need, ram, cfg) == Some(chosen) && t in chosen
    ensures u in ts && Clears(u, candidateSeeders, cfg.minSeedMargin) && u !in chosen ==> ScoreOf(t, cfg) <= ScoreOf(u, cfg)
    ensures ScoreOf(t, cfg) <= ScoreOf(chosen[|chosen| - 1], cfg)
  {
    var order := EvictionOrder(ts, candidateSeeders, cfg);
    OrderRearranges(ts, candidateSeeders, cfg);
    EvictedFirstIsPreorder(cfg);
    PrefixGoesFirst(order, EvictedFirst(cfg), |chosen|, t, u);
    if u in ts && Clears(u, candidateSeeders, cfg.minSeedMargin) {
      OrderHas(ts, candidateSeeders, cfg, u);
    }
  }

  lemma EvictedFirstIsPreorder(cfg: Config)
    ensures TotalPreorder(EvictedFirst(cfg))
  {
  }

  lemma OrderHas(ts: seq<Torrent>, candidateSeeders: nat, cfg: Config, u: Torrent)
    requires u in ts && u.seeders - cfg.minSeedMargin >= candidateSeeders
    ensures u in EvictionOrder(ts, candidateSeeders, cfg)
  {
    SortMembers(Qualifying(ts, candidateSeeders, cfg.minSeedMargin), EvictedFirst(cfg));
  }

  /**
   * In plain terms: with no bias the best seeded go first; with one, what stays is what ranking would rather have,
   * more bytes for its RAM or, under a negative bias, the smaller.
   */
  lemma EvictsLeastWanted(ts: seq<Torrent>, candidateSeeders: nat, need: nat, ram: nat, cfg: Config, chosen: seq<Torrent>, t: Torrent, u: Torrent)
    requires Selector.IncreasingPower(cfg.power)
    requires Displaceable(ts, candidateSeeders, need, ram, cfg) == Some(chosen) && t in chosen
    requires u in ts && u.seeders - cfg.minSeedMargin >= candidateSeeders && u !in chosen
    ensures cfg.sizeBias == 0.0 ==> t.seeders >= u.seeders
    ensures cfg.sizeBias != 0.0 ==>
              Selector.Preferred(Selector.Footprint(u.size, u.pieces), Selector.Footprint(t.size, t.pieces), cfg.sizeBias,
                                 Ram.PeerLimitForBudget(cfg.ramBudget))
  {
    EvictsLowestScores(ts, candidateSeeders, need, ram, cfg, chosen, t);
    Selector.ScoreOrder(Selector.Footprint(u.size, u.pieces), Selector.Footprint(t.size, t.pieces), cfg.sizeBias,
                        Ram.PeerLimitForBudget(cfg.ramBudget), cfg.power);
  }

  /** A displaced torrent of known piece count is credited exactly the RAM that removing it frees; one of unknown count as one piece. */
  lemma CreditIsOwnPrice(t: Torrent, cfg: Config)
    ensures t.pieces > 0 ==> Credit(cfg)(t) == HeldPrice(Ram.PeerLimitForBudget(cfg.ramBudget))(t)
    ensures t.pieces == 0 ==> Credit(cfg)(t) == Ram.TorrentRam(1, Ram.PeerLimitForBudget(cfg.ramBudget))
  {
  }

  lemma PrefixMembers(ts: seq<Torrent>, n: nat)
    requires n <= |ts|
    ensures forall t :: t in ts[..n] ==> t in ts
  {
  }

  /** Nothing is chosen exactly when no selection at all of qualifying torrents could pay both needs. */
  lemma RefusesExactlyWhenNothingPays(ts: seq<Torrent>, candidateSeeders: nat, need: nat, ram: nat, cfg: Config)
    requires need > 0
    ensures var q := Qualifying(ts, candidateSeeders, cfg.minSeedMargin);
            Displaceable(ts, candidateSeeders, need, ram, cfg) == None
            <==> forall s: seq<Torrent> :: multiset(s) <= multiset(q) ==> !Covers(s, need, ram, cfg)
  {
    var q := Qualifying(ts, candidateSeeders, cfg.minSeedMargin);
    var order := EvictionOrder(ts, candidateSeeders, cfg);
    OrderRearranges(ts, candidateSeeders, cfg);
    var n := ShortestFrom(order, 0, need, ram, cfg);
    if n.None? {
      assert order[..|order|] == order;
      assert order != [] ==> !Covers(order, need, ram, cfg);
      forall s: seq<Torrent> | multiset(s) <= multiset(q) ensures !Covers(s, need, ram, cfg) {
        SumOfPart(s, order, Size());
        SumOfPart(s, order, Credit(cfg));
      }
    } else {
      PartOfWhole(order, n.value);
      assert Covers(order[..n.value], need, ram, cfg);
    }
  }

  // ---- the same choice, in bytes and RAM ----

  function Bytes(ts: seq<Torrent>): nat {
    if ts == [] then 0 else Bytes(ts[..|ts| - 1]) + ts[|ts| - 1].size
  }

  /** The RAM a selection is credited with: the price of each, one of unknown piece count as one piece. */
  function CreditedRam(ts: seq<Torrent>, peers: nat): nat {
    if ts == [] then 0
    else CreditedRam(ts[..|ts| - 1], peers) + Ram.TorrentRam(if ts[|ts| - 1].pieces == 0 then 1 else ts[|ts| - 1].pieces, peers)
  }

  predicate PaysBoth(ts: seq<Torrent>, need: nat, ram: nat, cfg: Config) {
    Bytes(ts) >= need && CreditedRam(ts, Ram.PeerLimitForBudget(cfg.ramBudget)) >= ram
  }

  lemma {:induction false} SumsAre(ts: seq<Torrent>, cfg: Config)
    ensures SumSeq(ts, Size()) == Bytes(ts)
    ensures SumSeq(ts, Credit(cfg)) == CreditedRam(ts, Ram.PeerLimitForBudget(cfg.ramBudget))
  {
    if ts != [] {
      SumsAre(ts[..|ts| - 1], cfg);
    }
  }

  /** A selection from `ts` of torrents seeded better than the candidate by the margin. */
  ghost predicate Selects(s: seq<Torrent>, ts: seq<Torrent>, candidateSeeders: nat, margin: int) {
    multiset(s) <= multiset(ts) && forall t :: t in s ==> t.seeders - margin >= candidateSeeders
  }

  lemma SelectsIsPart(s: seq<Torrent>, ts: seq<Torrent>, candidateSeeders: nat, margin: int)
    ensures Selects(s, ts, candidateSeeders, margin) <==> multiset(s) <= multiset(Qualifying(ts, candidateSeeders, margin))
  {
    var q := Qualifying(ts, candidateSeeders, margin);
    forall t: Torrent ensures multiset(q)[t] == if t.seeders - margin >= candidateSeeders then multiset(ts)[t] else 0 {
      FilterCounts(ts, (t: Torrent) => Clears(t, candidateSeeders, margin), t);
    }
    if multiset(s) <= multiset(q) {
      forall t | t in s ensures t.seeders - margin >= candidateSeeders {
        assert multiset(s)[t] > 0;
      }
    }
  }

  /** Something makes way exactly when some selection has the bytes and the RAM; it has them, and not without its last. */
  lemma DisplacesExactlyWhenPaid(ts: seq<Torrent>, candidateSeeders: nat, need: nat, ram: nat, cfg: Config)
    requires need > 0
    ensures Displaceable(ts, candidateSeeders, need, ram, cfg) != None
            <==> exists s: seq<Torrent> :: Selects(s, ts, candidateSeeders, cfg.minSeedMargin) && PaysBoth(s, need, ram, cfg)
    ensures var chosen := Displaceable(ts, candidateSeeders, need, ram, cfg);
            chosen != None ==>
              && chosen.value != [] && Selects(chosen.value, ts, candidateSeeders, cfg.minSeedMargin)
              && PaysBoth(chosen.value, need, ram, cfg)
              && !PaysBoth(chosen.value[..|chosen.value| - 1], need, ram, cfg)
  {
    RefusesExactlyWhenNothingPays(ts, candidateSeeders, need, ram, cfg);
    forall s: seq<Torrent> ensures Selects(s, ts, candidateSeeders, cfg.minSeedMargin)
                     <==> multiset(s) <= multiset(Qualifying(ts, candidateSeeders, cfg.minSeedMargin))
             ensures Covers(s, need, ram, cfg) <==> PaysBoth(s, need, ram, cfg)
    {
      SelectsIsPart(s, ts, candidateSeeders, cfg.minSeedMargin);
      SumsAre(s, cfg);
    }
    var chosen := Displaceable(ts, candidateSeeders, need, ram, cfg);
    if chosen != None {
      ChoiceIsShortestPayingPrefix(ts, candidateSeeders, need, ram, cfg, chosen.value);
      OrderRearranges(ts, candidateSeeders, cfg);
      PartOfWhole(EvictionOrder(ts, candidateSeeders, cfg), |chosen.value|);
    }
  }

  lemma PartOfWhole(ts: seq<Torrent>, n: nat)
    requires n <= |ts|
    ensures multiset(ts[..n]) <= multiset(ts)
  {
    assert ts == ts[..n] + ts[n..];
  }

  function SeedersOf(ts: seq<Torrent>): (r: seq<nat>)
    ensures |r| == |ts| && forall i :: 0 <= i < |ts| ==> r[i] == ts[i].seeders
  {
    seq(|ts|, i requires 0 <= i < |ts| => ts[i].seeders)
  }

  /** The swap's own margin test is exactly the filter: it can refuse nothing the filter let through. */
  lemma MarginIsTheFilter(ts: seq<Torrent>, candidateSeeders: nat, margin: int)
    ensures Selector.MeetsSeedMargin(candidateSeeders, SeedersOf(ts), margin)
            <==> forall t :: t in ts ==> Clears(t, candidateSeeders, margin)
  {
    var s := SeedersOf(ts);
    if s != [] {
      var m := Selector.MinSeeders(s);
      var i :| 0 <= i < |s| && s[i] == m;
      assert ts[i] in ts;
      forall t | t in ts ensures m <= t.seeders {
        var j :| 0 <= j < |ts| && ts[j] == t;
        assert s[j] in s;
      }
    }
  }

  /** The margin keeps out candidates as well seeded as what they displace exactly when it is positive; at 0 an equal count qualifies. */
  lemma StrictlyLowerExactlyWithMargin(margin: nat)
    ensures (forall t: Torrent, s: nat :: Clears(t, s, margin) ==> s < t.seeders) <==> margin > 0
  {
    var t := Torrent(0, 0, 0, 0, 7, 0, 0, None, None);
    assert margin == 0 ==> Clears(t, 7, margin);
  }

  // ---- what is chosen is held ----

  lemma {:induction false} HashSetHas(ts: seq<Torrent>, h: Hash)
    ensures h in HashSet(ts) <==> exists i :: 0 <= i < |ts| && ts[i].hash == h
  {
    if ts != [] {
      var rest := ts[..|ts| - 1];
      HashSetHas(rest, h);
      if h in HashSet(rest) {
        var i :| 0 <= i < |rest| && rest[i].hash == h;
        assert ts[i].hash == h;
      }
      if i :| 0 <= i < |ts| && ts[i].hash == h {
        assert i < |rest| ==> rest[i].hash == h;
      }
    }
  }

  predicate IsHeld(t: Torrent, held: map<Hash, Torrent>) {
    t.hash in held && held[t.hash] == t
  }

  /** Drawn from the held set: held, and no two alike. */
  lemma {:induction false} DrawnIsDistinct(ts: seq<Torrent>, held: map<Hash, Torrent>)
    ensures Drawn(ts, held) <==> (forall i :: 0 <= i < |ts| ==> IsHeld(ts[i], held)) && Distinct(ts)
  {
    if ts != [] {
      var rest, t := ts[..|ts| - 1], ts[|ts| - 1];
      DrawnIsDistinct(rest, held);
      HashSetHas(rest, t.hash);
      assert forall i :: 0 <= i < |rest| ==> rest[i] == ts[i];
      assert ts == rest + [t];
      if Drawn(ts, held) {
        forall i, j | 0 <= i < j < |ts| ensures ts[i] != ts[j] {
          assert ts[i] == rest[i];
        }
      }
    }
  }

  lemma {:induction false} FilterDistinct(ts: seq<Torrent>, p: Torrent -> bool)
    requires Distinct(ts)
    ensures Distinct(Filter(ts, p))
  {
    if ts != [] {
      assert ts[0] !in ts[1..];
      FilterDistinct(ts[1..], p);
    }
  }

  lemma FilterDrawn(ts: seq<Torrent>, p: Torrent -> bool, held: map<Hash, Torrent>)
    requires Drawn(ts, held)
    ensures Drawn(Filter(ts, p), held)
  {
    DrawnIsDistinct(ts, held);
    FilterDistinct(ts, p);
    forall i | 0 <= i < |Filter(ts, p)| ensures IsHeld(Filter(ts, p)[i], held) {
      assert Filter(ts, p)[i] in Filter(ts, p);
    }
    DrawnIsDistinct(Filter(ts, p), held);
  }

  lemma SortDrawn(ts: seq<Torrent>, le: (Torrent, Torrent) -> bool, held: map<Hash, Torrent>)
    requires Drawn(ts, held)
    ensures Drawn(Sort(ts, le), held)
  {
    DrawnIsDistinct(ts, held);
    SortPermutes(ts, le);
    SortMembers(ts, le);
    DistinctByMultiset(ts, Sort(ts, le));
    forall i | 0 <= i < |Sort(ts, le)| ensures IsHeld(Sort(ts, le)[i], held) {
      assert Sort(ts, le)[i] in Sort(ts, le);
    }
    DrawnIsDistinct(Sort(ts, le), held);
  }

  lemma {:induction false} PrefixDrawn(ts: seq<Torrent>, n: nat, held: map<Hash, Torrent>)
    requires Drawn(ts, held) && n <= |ts|
    ensures Drawn(ts[..n], held)
    decreases |ts|
  {
    if n == |ts| {
      assert ts[..n] == ts;
    } else {
      PrefixDrawn(ts[..|ts| - 1], n, held);
      assert ts[..|ts| - 1][..n] == ts[..n];
    }
  }

  lemma ChoiceIsDrawn(ts: seq<Torrent>, candidateSeeders: nat, need: nat, ram: nat, cfg: Config, chosen: seq<Torrent>, held: map<Hash, Torrent>)
    requires Drawn(ts, held) && Displaceable(ts, candidateSeeders, need, ram, cfg) == Some(chosen)
    ensures Drawn(chosen, held)
  {
    var q := Qualifying(ts, candidateSeeders, cfg.minSeedMargin);
    FilterDrawn(ts, (t: Torrent) => Clears(t, candidateSeeders, cfg.minSeedMargin), held);
    SortDrawn(q, EvictedFirst(cfg), held);
    PrefixDrawn(EvictionOrder(ts, candidateSeeders, cfg), |chosen|, held);
  }
}
