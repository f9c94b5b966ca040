/**
 * Selection arithmetic: ranking, eviction order, the seed-scarcity gate, the p10 floor,
 * the swap margin, and the weighted choice of a storage location.
 * Scores and chances are exact reals.
 */
module Selector {
  import opened Words
  import opened Sorting
  import Ram

  datatype Candidate = Candidate(hash: Hash, size: nat, pieces: nat, seeders: nat)

  /** `f64::powf`, of which only strict monotonicity is used. */
  type Powf = (real, real) -> real

  ghost predicate IncreasingPower(pow: Powf) {
    forall x, y, b :: 0.0 < x < y && b > 0.0 ==> pow(x, b) < pow(y, b)
  }

  predicate Available(c: Candidate) {
    c.seeders >= 1
  }

  // ---- ranking ----

  /** What a torrent offers the ranking: its size, its pieces. */
  datatype Footprint = Footprint(size: nat, pieces: nat)

  function Bulk(c: Candidate): Footprint {
    Footprint(c.size, c.pieces)
  }

  function BytesPerRam(f: Footprint, peerLimit: nat): (r: real)
    ensures r > 0.0
  {
    RatioPositive(Max(f.size, 1), Ram.TorrentRam(f.pieces, peerLimit));
    (Max(f.size, 1) as real) / (Ram.TorrentRam(f.pieces, peerLimit) as real)
  }

  lemma RatioPositive(a: nat, b: nat)
    requires a > 0 && b > 0
    ensures (a as real) / (b as real) > 0.0
  {
    var q := (a as real) / (b as real);
    assert q * (b as real) == a as real;
    Cancel(0.0, q, b as real);
  }

  function SizeBiasScore(f: Footprint, sizeBias: real, peerLimit: nat, pow: Powf): real {
    var ratio := BytesPerRam(f, peerLimit);
    if sizeBias > 0.0 then pow(ratio, sizeBias)
    else -(f.size as real) + ratio / (1.0 + f.size as real)
  }

  function EvictionScore(f: Footprint, seeders: nat, sizeBias: real, peerLimit: nat, pow: Powf): real {
    if sizeBias == 0.0 then -(seeders as real) else SizeBiasScore(f, sizeBias, peerLimit, pow)
  }

  /** The comparator of `rank_candidates`: fewest seeders, then the higher score. */
  predicate RanksBefore(a: Candidate, b: Candidate, sizeBias: real, peerLimit: nat, pow: Powf) {
    || a.seeders < b.seeders
    || (a.seeders == b.seeders
        && SizeBiasScore(Bulk(a), sizeBias, peerLimit, pow) >= SizeBiasScore(Bulk(b), sizeBias, peerLimit, pow))
  }

  function RankOrder(sizeBias: real, peerLimit: nat, pow: Powf): (Candidate, Candidate) -> bool {
    (a: Candidate, b: Candidate) => RanksBefore(a, b, sizeBias, peerLimit, pow)
  }

  function Ranking(cands: seq<Candidate>, sizeBias: real, peerLimit: nat, pow: Powf): seq<Candidate> {
    Sort(Filter(cands, Available), RankOrder(sizeBias, peerLimit, pow))
  }

  /** The tie-break that the scores realise, free of any score arithmetic. */
  predicate Preferred(a: Footprint, b: Footprint, sizeBias: real, peerLimit: nat) {
    if sizeBias > 0.0 then BytesPerRam(a, peerLimit) >= BytesPerRam(b, peerLimit)
    else
      || a.size < b.size
      || (a.size == b.size && Ram.TorrentRam(a.pieces, peerLimit) <= Ram.TorrentRam(b.pieces, peerLimit))
  }

  lemma QuotientBelow(a: real, b: real, d: real)
    requires d > 0.0
    ensures a / d < b <==> a < b * d
    ensures 0.0 < a / d <==> 0.0 < a
  {
    var q := a / d;
    assert q * d == a;
    Cancel(q, b, d);
    Cancel(0.0, q, d);
  }

  lemma ProductAbove(d: real, c: real)
    requires d > 0.0 && c > 1.0
    ensures d < d * c
  {
    Cancel(1.0, c, d);
    assert c * d == d * c;
  }

  /** The ratio term of the smallest-first score never outweighs one byte of size. */
  lemma RatioTermIsFraction(f: Footprint, peerLimit: nat)
    ensures 0.0 < BytesPerRam(f, peerLimit) / (1.0 + f.size as real) < 1.0
  {
    var ram := Ram.TorrentRam(f.pieces, peerLimit) as real;
    var m := Max(f.size, 1) as real;
    var d := 1.0 + f.size as real;
    ProductAbove(d, ram);
    QuotientBelow(m, d, ram);
    QuotientBelow(BytesPerRam(f, peerLimit), 1.0, d);
  }

  lemma DivideBoth(x: real, y: real, d: real)
    requires d > 0.0
    ensures x / d >= y / d <==> x >= y
  {
    var p, q := x / d, y / d;
    assert p * d == x && q * d == y;
    Cancel(p, q, d);
  }

  /** At equal size the score falls as the RAM price rises. */
  lemma RatioTermOrder(a: Footprint, b: Footprint, peerLimit: nat)
    requires a.size == b.size
    ensures var d := 1.0 + a.size as real;
            BytesPerRam(a, peerLimit) / d >= BytesPerRam(b, peerLimit) / d
            <==> Ram.TorrentRam(a.pieces, peerLimit) <= Ram.TorrentRam(b.pieces, peerLimit)
  {
    var ra, rb := Ram.TorrentRam(a.pieces, peerLimit), Ram.TorrentRam(b.pieces, peerLimit);
    var x, y := BytesPerRam(a, peerLimit), BytesPerRam(b, peerLimit);
    QuotientOrder(Max(a.size, 1) as real, ra as real, rb as real);
    assert x >= y <==> ra <= rb;
    DivideBoth(x, y, 1.0 + a.size as real);
  }

  lemma QuotientOrder(m: real, p: real, q: real)
    requires m > 0.0 && p > 0.0 && q > 0.0
    ensures m / p >= m / q <==> p <= q
  {
    var x, y := m / p, m / q;
    assert x * p == m && y * q == m && y > 0.0;
    Cancel(x, y, p);
    Cancel(q, p, y);
    assert y * p < y * q <==> p < q by { Cancel(p, q, y); }
  }

  /** Comparing scores is comparing footprints: exact both ways, for every exponent. */
  lemma ScoreOrder(a: Footprint, b: Footprint, sizeBias: real, peerLimit: nat, pow: Powf)
    requires IncreasingPower(pow)
    ensures SizeBiasScore(a, sizeBias, peerLimit, pow) >= SizeBiasScore(b, sizeBias, peerLimit, pow)
            <==> Preferred(a, b, sizeBias, peerLimit)
  {
    if sizeBias > 0.0 {
      var x, y := BytesPerRam(a, peerLimit), BytesPerRam(b, peerLimit);
      assert x < y ==> pow(x, sizeBias) < pow(y, sizeBias);
      assert y < x ==> pow(y, sizeBias) < pow(x, sizeBias);
    } else {
      RatioTermIsFraction(a, peerLimit);
      RatioTermIsFraction(b, peerLimit);
      if a.size == b.size {
        RatioTermOrder(a, b, peerLimit);
      }
    }
  }

  /**
   * With a positive bias the torrent with more bytes for its RAM is preferred, compared crosswise; with any other
   * the smaller, and of two as large the one cheaper in RAM.
   */
  lemma PreferenceExactly(a: Footprint, b: Footprint, sizeBias: real, peerLimit: nat)
    ensures var ra, rb := Ram.TorrentRam(a.pieces, peerLimit), Ram.TorrentRam(b.pieces, peerLimit);
            Preferred(a, b, sizeBias, peerLimit) <==>
              if sizeBias > 0.0 then Max(a.size, 1) * rb >= Max(b.size, 1) * ra
              else a.size < b.size || (a.size == b.size && ra <= rb)
  {
    var ra, rb := Ram.TorrentRam(a.pieces, peerLimit), Ram.TorrentRam(b.pieces, peerLimit);
    CrosswiseNats(Max(a.size, 1), ra, Max(b.size, 1), rb);
  }

  lemma CrosswiseNats(m: nat, p: nat, n: nat, q: nat)
    requires p > 0 && q > 0
    ensures (m as real) / (p as real) >= (n as real) / (q as real) <==> m * q >= n * p
  {
    Crosswise(m as real, p as real, n as real, q as real);
    ProductAsReal(m, q);
    ProductAsReal(n, p);
  }

  lemma ProductAsReal(m: nat, n: nat)
    ensures (m as real) * (n as real) == (m * n) as real
  {
  }

  lemma Crosswise(m: real, p: real, n: real, q: real)
    requires p > 0.0 && q > 0.0
    ensures m / p >= n / q <==> m * q >= n * p
  {
    var x, y := m / p, n / q;
    assert x * p == m && y * q == n;
    Cancel(x, y, p * q) by { assert p * q > 0.0; }
    assert x * (p * q) == m * q;
    assert y * (p * q) == n * p;
  }

  lemma RankOrderIsPreorder(sizeBias: real, peerLimit: nat, pow: Powf)
    ensures TotalPreorder(RankOrder(sizeBias, peerLimit, pow))
  {
  }

  /**
   * The ranking rearranges exactly the available candidates: fewest seeders first and, within
   * one seeder count, bytes per byte of RAM descending (positive bias) or size, then RAM,
   * ascending (zero and negative bias).
   */
  lemma RankingOrder(cands: seq<Candidate>, sizeBias: real, peerLimit: nat, pow: Powf)
    requires IncreasingPower(pow)
    ensures var r := Ranking(cands, sizeBias, peerLimit, pow);
            && multiset(r) == multiset(Filter(cands, Available))
            && (forall i, j :: 0 <= i < j < |r| ==>
                  || r[i].seeders < r[j].seeders
                  || (r[i].seeders == r[j].seeders && Preferred(Bulk(r[i]), Bulk(r[j]), sizeBias, peerLimit)))
  {
    var le := RankOrder(sizeBias, peerLimit, pow);
    var avail := Filter(cands, Available);
    SortPermutes(avail, le);
    RankOrderIsPreorder(sizeBias, peerLimit, pow);
    SortSorts(avail, le);
    var r := Ranking(cands, sizeBias, peerLimit, pow);
    forall i, j | 0 <= i < j < |r|
      ensures r[i].seeders < r[j].seeders
           || (r[i].seeders == r[j].seeders && Preferred(Bulk(r[i]), Bulk(r[j]), sizeBias, peerLimit))
    {
      assert le(r[i], r[j]);
      ScoreOrder(Bulk(r[i]), Bulk(r[j]), sizeBias, peerLimit, pow);
    }
  }

  /** `rank_candidates`: the available candidates rearranged, best first, a later one never strictly ahead. */
  method RankCandidates(candidates: seq<Candidate>, sizeBias: real, peerLimit: nat, pow: Powf)
    returns (ranked: seq<Candidate>)
    ensures ranked == Ranking(candidates, sizeBias, peerLimit, pow)
    ensures multiset(ranked) == multiset(Filter(candidates, Available))
    ensures Sorted(ranked, RankOrder(sizeBias, peerLimit, pow))
  {
    ranked := Filter(candidates, Available);
    SortPermutes(ranked, RankOrder(sizeBias, peerLimit, pow));
    RankOrderIsPreorder(sizeBias, peerLimit, pow);
    SortSorts(ranked, RankOrder(sizeBias, peerLimit, pow));
    ranked := Sort(ranked, RankOrder(sizeBias, peerLimit, pow));
  }

  // ---- eviction order against ranking order ----

  function AsCandidate(f: Footprint, seeders: nat): Candidate {
    Candidate(0, f.size, f.pieces, seeders)
  }

  /** The torrent `f` of `s` seeders is evicted strictly before `g` of `t` exactly when it ranks strictly behind it. */
  predicate Reverses(f: Footprint, s: nat, g: Footprint, t: nat, sizeBias: real, peerLimit: nat, pow: Powf) {
    EvictionScore(f, s, sizeBias, peerLimit, pow) < EvictionScore(g, t, sizeBias, peerLimit, pow)
    <==> !RanksBefore(AsCandidate(f, s), AsCandidate(g, t), sizeBias, peerLimit, pow)
  }

  /** Two torrents of one byte and two, the larger last to be preferred by a negative bias, first by a positive one. */
  lemma SizeDecides(sizeBias: real, peerLimit: nat)
    ensures var small, large := Footprint(1, 1), Footprint(2, 1);
            if sizeBias > 0.0 then !Preferred(small, large, sizeBias, peerLimit) else !Preferred(large, small, sizeBias, peerLimit)
  {
    var ram := Ram.TorrentRam(1, peerLimit) as real;
    DivideBoth(1.0, 2.0, ram);
    assert BytesPerRam(Footprint(1, 1), peerLimit) == 1.0 / ram;
    assert BytesPerRam(Footprint(2, 1), peerLimit) == 2.0 / ram;
  }

  /** Within one seeder count, scores compare footprints, so the reversal holds exactly off zero bias. */
  lemma ReversesWithinBand(f: Footprint, g: Footprint, s: nat, sizeBias: real, peerLimit: nat, pow: Powf)
    requires IncreasingPower(pow)
    ensures Reverses(f, s, g, s, sizeBias, peerLimit, pow) <==> sizeBias != 0.0 || Preferred(f, g, sizeBias, peerLimit)
  {
    ScoreOrder(f, g, sizeBias, peerLimit, pow);
  }

  /** Across seeder counts, ranking goes by seeders: eviction has to score the better seeded strictly lower, and no other. */
  lemma ReversesAcrossBands(f: Footprint, g: Footprint, s: nat, t: nat, sizeBias: real, peerLimit: nat, pow: Powf)
    requires IncreasingPower(pow) && s != t
    ensures sizeBias == 0.0 ==> Reverses(f, s, g, t, sizeBias, peerLimit, pow)
    ensures sizeBias != 0.0 ==>
              (Reverses(f, s, g, t, sizeBias, peerLimit, pow) <==> (s > t <==> !Preferred(f, g, sizeBias, peerLimit)))
  {
    ScoreOrder(f, g, sizeBias, peerLimit, pow);
  }

  /**
   * Eviction order is the exact reverse of ranking order between torrents of `s` and of `t` seeders,
   * whatever their footprints, exactly when the bias is zero and the counts differ, or it is not and they are equal.
   */
  lemma EvictionReversesRanking(s: nat, t: nat, sizeBias: real, peerLimit: nat, pow: Powf)
    requires IncreasingPower(pow)
    ensures (forall f, g :: Reverses(f, s, g, t, sizeBias, peerLimit, pow)) <==> ((s == t) <==> sizeBias != 0.0)
  {
    var small, large := Footprint(1, 1), Footprint(2, 1);
    SizeDecides(sizeBias, peerLimit);
    if s == t {
      forall f, g ensures Reverses(f, s, g, t, sizeBias, peerLimit, pow) <==> sizeBias != 0.0 || Preferred(f, g, sizeBias, peerLimit) {
        ReversesWithinBand(f, g, s, sizeBias, peerLimit, pow);
      }
      assert sizeBias == 0.0 ==> !Reverses(large, s, small, t, sizeBias, peerLimit, pow);
    } else if sizeBias == 0.0 {
      forall f, g ensures Reverses(f, s, g, t, sizeBias, peerLimit, pow) {
        ReversesAcrossBands(f, g, s, t, sizeBias, peerLimit, pow);
      }
    } else {
      ScoreOrder(small, small, sizeBias, peerLimit, pow);
      ReversesAcrossBands(small, small, s, t, sizeBias, peerLimit, pow);
      ReversesAcrossBands(small, large, s, t, sizeBias, peerLimit, pow);
      ReversesAcrossBands(large, small, s, t, sizeBias, peerLimit, pow);
      assert !Reverses(small, s, small, t, sizeBias, peerLimit, pow)
          || !Reverses(small, s, large, t, sizeBias, peerLimit, pow)
          || !Reverses(large, s, small, t, sizeBias, peerLimit, pow);
    }
  }

  // ---- the seed-scarcity gate ----

  function Power(base: real, n: nat): real {
    if n == 0 then 1.0 else base * Power(base, n - 1)
  }

  function SelectionChance(aggressiveness: real, seeders: nat, seederFloor: nat): real {
    Power(aggressiveness, Min(SatSub(Max(seeders, 1), Max(seederFloor, 1)), I32_MAX))
  }

  lemma {:induction false} PowerBounds(base: real, n: nat)
    requires 0.0 < base < 1.0
    ensures 0.0 < Power(base, n) <= 1.0
    ensures n > 0 ==> Power(base, n) < 1.0
  {
    if n > 0 {
      PowerBounds(base, n - 1);
      var p := Power(base, n - 1);
      assert 0.0 < base * p <= base * 1.0;
    }
  }

  lemma {:induction false} PowerAntitone(base: real, m: nat, n: nat)
    requires 0.0 < base < 1.0 && m < n
    ensures Power(base, n) < Power(base, m)
  {
    PowerBounds(base, n - 1);
    Cancel(base, 1.0, Power(base, n - 1));
    if m < n - 1 {
      PowerAntitone(base, m, n - 1);
    }
  }

  /**
   * The chance is a probability, is certain exactly up to the floor, and strictly falls with each
   * further seeder until the exponent clamp.
   */
  lemma ChanceFallsWithSeeders(aggressiveness: real, s: nat, t: nat, floor: nat)
    requires 0.0 < aggressiveness < 1.0 && s < t
    ensures var p, q := SelectionChance(aggressiveness, s, floor), SelectionChance(aggressiveness, t, floor);
            && 0.0 < q <= p <= 1.0
            && (p == 1.0 <==> Max(s, 1) <= Max(floor, 1))
            && (q < p <==> Max(t, 1) > Max(floor, 1) && Max(s, 1) < Max(t, 1) && SatSub(Max(s, 1), Max(floor, 1)) < I32_MAX)
  {
    var m := Min(SatSub(Max(s, 1), Max(floor, 1)), I32_MAX);
    var n := Min(SatSub(Max(t, 1), Max(floor, 1)), I32_MAX);
    PowerBounds(aggressiveness, m);
    PowerBounds(aggressiveness, n);
    if m < n {
      PowerAntitone(aggressiveness, m, n);
    }
  }

  /** Up to the floor the chance is one; each further seeder multiplies it by the aggressiveness, until the clamp. */
  lemma ChanceIsGeometric(aggressiveness: real, seeders: nat, floor: nat)
    ensures seeders <= Max(floor, 1) ==> SelectionChance(aggressiveness, seeders, floor) == 1.0
    ensures Max(floor, 1) <= seeders && seeders - Max(floor, 1) < I32_MAX ==>
              SelectionChance(aggressiveness, seeders + 1, floor) == aggressiveness * SelectionChance(aggressiveness, seeders, floor)
    ensures Max(floor, 1) <= seeders && seeders - Max(floor, 1) >= I32_MAX ==>
              SelectionChance(aggressiveness, seeders + 1, floor) == SelectionChance(aggressiveness, seeders, floor)
  {
  }

  // ---- the p10 floor ----

  function CeilTenth(n: nat): nat {
    (n + 9) / 10
  }

  function Positive(counts: seq<nat>): seq<nat> {
    Filter(counts, (s: nat) => s > 0)
  }

  function NatLe(): (nat, nat) -> bool {
    (a: nat, b: nat) => a <= b
  }

  function SeederFloor(counts: seq<nat>): nat {
    var seeded := Positive(counts);
    if seeded == [] then 0
    else Sort(seeded, NatLe())[SatSub(CeilTenth(|seeded|), 1)]
  }

  function CountWhere(s: seq<nat>, p: nat -> bool): (n: nat)
    ensures n <= |s|
  {
    if s == [] then 0 else (if p(s[0]) then 1 else 0) + CountWhere(s[1..], p)
  }

  function AtMost(f: nat): nat -> bool {
    (x: nat) => x <= f
  }

  function Below(f: nat): nat -> bool {
    (x: nat) => x < f
  }

  /** The nearest-rank tenth percentile, as a property of the counts alone. */
  predicate IsTenthPercentile(f: nat, counts: seq<nat>) {
    var seeded := Positive(counts);
    && f in seeded
    && CountWhere(seeded, AtMost(f)) >= CeilTenth(|seeded|)
    && CountWhere(seeded, Below(f)) < CeilTenth(|seeded|)
  }

  lemma {:induction false} CountWhereConcat(s: seq<nat>, t: seq<nat>, p: nat -> bool)
    ensures CountWhere(s + t, p) == CountWhere(s, p) + CountWhere(t, p)
  {
    if s == [] {
      assert s + t == t;
    } else {
      CountWhereConcat(s[1..], t, p);
      assert (s + t)[1..] == s[1..] + t;
    }
  }

  lemma {:induction false} CountWhereInsert(x: nat, s: seq<nat>, p: nat -> bool)
    ensures CountWhere(Insert(x, s, NatLe()), p) == CountWhere(s, p) + (if p(x) then 1 else 0)
  {
    if s == [] {
    } else if x <= s[0] {
      assert ([x] + s)[1..] == s;
    } else {
      CountWhereInsert(x, s[1..], p);
      assert ([s[0]] + Insert(x, s[1..], NatLe()))[1..] == Insert(x, s[1..], NatLe());
    }
  }

  lemma {:induction false} CountWhereSort(s: seq<nat>, p: nat -> bool)
    ensures CountWhere(Sort(s, NatLe()), p) == CountWhere(s, p)
  {
    if s != [] {
      CountWhereSort(s[1..], p);
      CountWhereInsert(s[0], Sort(s[1..], NatLe()), p);
    }
  }

  lemma {:induction false} CountWhereAll(s: seq<nat>, p: nat -> bool)
    ensures (forall x :: x in s ==> p(x)) ==> CountWhere(s, p) == |s|
    ensures (forall x :: x in s ==> !p(x)) ==> CountWhere(s, p) == 0
  {
    if s != [] {
      assert s[0] in s && forall x :: x in s[1..] ==> x in s;
      CountWhereAll(s[1..], p);
    }
  }

  lemma CountWhereSplit(s: seq<nat>, k: nat, p: nat -> bool)
    requires k <= |s|
    ensures CountWhere(s, p) == CountWhere(s[..k], p) + CountWhere(s[k..], p)
  {
    CountWhereConcat(s[..k], s[k..], p);
    assert s == s[..k] + s[k..];
  }

  predicate AllMeet(s: seq<nat>, p: nat -> bool) {
    forall x :: x in s ==> p(x)
  }

  lemma SortedAround(s: seq<nat>, k: nat)
    requires Sorted(s, NatLe()) && k < |s|
    ensures AllMeet(s[..k + 1], AtMost(s[k]))
    ensures forall x :: x in s[k..] ==> !Below(s[k])(x)
  {
    var front, back := s[..k + 1], s[k..];
    forall x | x in front ensures x <= s[k] {
      var i :| 0 <= i <= k && front[i] == x;
      assert i < k ==> NatLe()(s[i], s[k]);
    }
    forall x | x in back ensures x >= s[k] {
      var i :| 0 <= i < |s| - k && back[i] == x;
      assert i > 0 ==> NatLe()(s[k], s[k + i]);
    }
  }

  /** In a sorted sequence, position `k` has at least `k + 1` counts at or below it and at most `k` below. */
  lemma CountsAroundPosition(s: seq<nat>, k: nat)
    requires Sorted(s, NatLe()) && k < |s|
    ensures CountWhere(s, AtMost(s[k])) >= k + 1
    ensures CountWhere(s, Below(s[k])) <= k
  {
    SortedAround(s, k);
    CountWhereSplit(s, k + 1, AtMost(s[k]));
    CountWhereAll(s[..k + 1], AtMost(s[k]));
    CountWhereSplit(s, k, Below(s[k]));
    CountWhereAll(s[k..], Below(s[k]));
  }

  lemma SeederFloorIsTenthPercentile(counts: seq<nat>)
    ensures if Positive(counts) == [] then SeederFloor(counts) == 0
            else IsTenthPercentile(SeederFloor(counts), counts)
  {
    var seeded := Positive(counts);
    if seeded != [] {
      var sorted := Sort(seeded, NatLe());
      var k := SatSub(CeilTenth(|seeded|), 1);
      SortSorts(seeded, NatLe());
      CountsAroundPosition(sorted, k);
      SortMembers(seeded, NatLe());
      CountWhereSort(seeded, AtMost(sorted[k]));
      CountWhereSort(seeded, Below(sorted[k]));
    }
  }

  lemma {:induction false} CountWhereMonotone(s: seq<nat>, p: nat -> bool, q: nat -> bool)
    requires forall x :: p(x) ==> q(x)
    ensures CountWhere(s, p) <= CountWhere(s, q)
  {
    if s != [] {
      CountWhereMonotone(s[1..], p, q);
    }
  }

  /** No other count is the tenth percentile, so the floor does not depend on arrival order. */
  lemma TenthPercentileIsUnique(f: nat, g: nat, counts: seq<nat>)
    requires IsTenthPercentile(f, counts) && IsTenthPercentile(g, counts)
    ensures f == g
  {
    if f < g {
      CountWhereMonotone(Positive(counts), AtMost(f), Below(g));
    } else if g < f {
      CountWhereMonotone(Positive(counts), AtMost(g), Below(f));
    }
  }

  // ---- the margin and the swap decision ----

  /** What the decision needs to know of a held torrent: its seeders. */
  function MinSeeders(displaced: seq<nat>): (m: nat)
    requires displaced != []
    ensures m in displaced && forall x :: x in displaced ==> m <= x
  {
    if |displaced| == 1 then displaced[0]
    else
      var rest := MinSeeders(displaced[1..]);
      assert displaced == [displaced[0]] + displaced[1..];
      Min(displaced[0], rest)
  }

  predicate MeetsSeedMargin(candidateSeeders: nat, displaced: seq<nat>, minSeedMargin: int) {
    displaced == [] || candidateSeeders <= MinSeeders(displaced) - minSeedMargin
  }

  datatype Reason =
    | NotEvaluated
    | NoLiveSeed
    | MarginFailed
    | RollSucceeded
    | RollFailed
    | NothingDisplaceable
    | DeviceTooFull

  datatype SwapDecision = SwapDecision(shouldSwap: bool, chance: real, roll: real, reason: Reason) {
    predicate SeedScarcityBlocked() {
      reason == RollFailed
    }
  }

  function EvaluateSwap(candidateSeeders: nat, seederFloor: nat, displaced: seq<nat>, minSeedMargin: int,
                        aggressiveness: real, roll: real): SwapDecision
  {
    if candidateSeeders < 1 then SwapDecision(false, 0.0, roll, NoLiveSeed)
    else if !MeetsSeedMargin(candidateSeeders, displaced, minSeedMargin) then
      SwapDecision(false, 0.0, roll, MarginFailed)
    else
      var chance := SelectionChance(aggressiveness, candidateSeeders, seederFloor);
      if roll < chance then SwapDecision(true, chance, roll, RollSucceeded)
      else SwapDecision(false, chance, roll, RollFailed)
  }

  // ---- weighted choice of a location ----

  datatype Slot = Slot(index: nat, free: nat)

  /** The locations with room, in index order, from index `i` on. */
  function EligibleFrom(free: seq<nat>, need: seq<nat>, i: nat): seq<Slot>
    requires i <= |free| == |need|
    decreases |free| - i
  {
    if i == |free| then []
    else (if free[i] >= need[i] then [Slot(i, free[i])] else []) + EligibleFrom(free, need, i + 1)
  }

  predicate EligibleSlot(x: Slot, free: seq<nat>, need: seq<nat>) {
    x.index < |free| == |need| && x.free == free[x.index] >= need[x.index]
  }

  /** Every eligible location appears once, and nothing else. */
  lemma {:induction false} EligibleSlots(free: seq<nat>, need: seq<nat>, i: nat)
    requires i <= |free| == |need|
    ensures var s := EligibleFrom(free, need, i);
            && (forall x :: x in s <==> i <= x.index && EligibleSlot(x, free, need))
            && (forall j, k :: 0 <= j < k < |s| ==> s[j].index < s[k].index)
    decreases |free| - i
  {
    if i < |free| {
      EligibleSlots(free, need, i + 1);
      var rest := EligibleFrom(free, need, i + 1);
      forall k | 0 <= k < |rest| ensures i < rest[k].index {
        assert rest[k] in rest;
      }
    }
  }

  /** Free space of the first `k` eligible locations. */
  function RunningFree(s: seq<Slot>, k: nat): real
    requires k <= |s|
  {
    if k == 0 then 0.0 else RunningFree(s, k - 1) + s[k - 1].free as real
  }

  /** The first eligible position, from `k` on, whose running total passes `target`, or `|s|`. */
  function FirstPast(s: seq<Slot>, target: real, k: nat): (r: nat)
    requires k <= |s|
    ensures k <= r <= |s|
    ensures forall j :: k < j <= r ==> RunningFree(s, j) <= target
    ensures r < |s| ==> target < RunningFree(s, r + 1)
    decreases |s| - k
  {
    if k == |s| || target < RunningFree(s, k + 1) then k else FirstPast(s, target, k + 1)
  }

  /** The slot whose slice holds `target`; past the end (only a zero total), the last one. */
  function SlotAt(s: seq<Slot>, target: real): Slot
    requires s != []
  {
    s[Min(FirstPast(s, target, 0), |s| - 1)]
  }

  function Scaled(roll: real, total: real): (r: real)
    ensures 0.0 <= roll < 1.0 && total > 0.0 ==> 0.0 <= r < total
  {
    assert total > 0.0 ==> (roll < 1.0 <==> roll * total < total) by {
      if total > 0.0 {
        Cancel(roll, 1.0, total);
      }
    }
    roll * total
  }

  function LocationChoice(free: seq<nat>, need: seq<nat>, roll: real): (choice: Option<nat>)
    requires |free| == |need|
    ensures choice.Some? ==> choice.value < |free| && free[choice.value] >= need[choice.value]
  {
    var eligible := EligibleFrom(free, need, 0);
    if eligible == [] then None
    else
      EligibleSlots(free, need, 0);
      Some(SlotAt(eligible, Scaled(roll, RunningFree(eligible, |eligible|))).index)
  }

  /** The walk of `choose_location`: the target is decremented until it goes negative. */
  method WalkWeights(eligible: seq<Slot>, aim: real) returns (chosen: Slot)
    requires eligible != []
    ensures chosen == SlotAt(eligible, aim)
  {
    var target := aim;
    var k := 0;
    while k < |eligible|
      invariant 0 <= k <= |eligible|
      invariant target == aim - RunningFree(eligible, k)
      invariant FirstPast(eligible, aim, 0) == FirstPast(eligible, aim, k)
    {
      target := target - eligible[k].free as real;
      if target < 0.0 {
        return eligible[k];
      }
      k := k + 1;
    }
    return eligible[|eligible| - 1];
  }

  /** `choose_location`. */
  method ChooseLocation(free: seq<nat>, need: seq<nat>, roll: real) returns (choice: Option<nat>)
    requires |free| == |need|
    ensures choice == LocationChoice(free, need, roll)
  {
    var eligible := EligibleFrom(free, need, 0);
    if |eligible| == 0 {
      return None;
    }
    var slot := WalkWeights(eligible, Scaled(roll, RunningFree(eligible, |eligible|)));
    return Some(slot.index);
  }

  lemma {:induction false} RunningFreeMonotone(s: seq<Slot>, j: nat, k: nat)
    requires j <= k <= |s|
    ensures RunningFree(s, j) <= RunningFree(s, k)
  {
    if j < k {
      RunningFreeMonotone(s, j, k - 1);
    }
  }

  /** `i` is the location whose slice of the running free space holds `target`. */
  ghost predicate SliceHolds(s: seq<Slot>, i: nat, target: real) {
    exists k | 0 <= k < |s| ::
      s[k].index == i && RunningFree(s, k) <= target < RunningFree(s, k + 1)
  }

  /**
   * The rolls that choose location `i` are exactly one interval: from the eligible free space
   * before it to that space plus its own, over the total. An ineligible location has no slice.
   */
  lemma RollsChoosingLocation(free: seq<nat>, need: seq<nat>, roll: real, i: nat)
    requires |free| == |need| && i < |free| && 0.0 <= roll < 1.0
    requires var s := EligibleFrom(free, need, 0); RunningFree(s, |s|) > 0.0
    ensures var s := EligibleFrom(free, need, 0);
            LocationChoice(free, need, roll) == Some(i) <==> SliceHolds(s, i, Scaled(roll, RunningFree(s, |s|)))
    ensures !(free[i] >= need[i]) ==> LocationChoice(free, need, roll) != Some(i)
  {
    var s := EligibleFrom(free, need, 0);
    var target := Scaled(roll, RunningFree(s, |s|));
    SlotOwnsSlice(s, i, target);
    assert LocationChoice(free, need, roll) == Some(SlotAt(s, target).index);
  }

  /** With no free space to weigh, only locations that need none being eligible, the last of them is chosen. */
  lemma ZeroTotalChoosesLast(free: seq<nat>, need: seq<nat>, roll: real)
    requires |free| == |need|
    requires var s := EligibleFrom(free, need, 0); s != [] && RunningFree(s, |s|) == 0.0
    ensures var s := EligibleFrom(free, need, 0); LocationChoice(free, need, roll) == Some(s[|s| - 1].index)
  {
    var s := EligibleFrom(free, need, 0);
    forall k | 0 <= k <= |s| ensures RunningFree(s, k) <= 0.0 {
      RunningFreeMonotone(s, k, |s|);
    }
    assert roll * 0.0 == 0.0;
  }

  lemma SlotOwnsSlice(s: seq<Slot>, i: nat, target: real)
    requires 0.0 <= target < RunningFree(s, |s|)
    ensures s != []
    ensures SlotAt(s, target).index == i <==> SliceHolds(s, i, target)
  {
    FirstPastIsSlice(s, target);
    var r := FirstPast(s, target, 0);
    if SliceHolds(s, i, target) {
      var k :| 0 <= k < |s| && s[k].index == i && RunningFree(s, k) <= target < RunningFree(s, k + 1);
      SlicesAreDisjoint(s, target, r, k);
    }
  }

  lemma FirstPastIsSlice(s: seq<Slot>, target: real)
    requires 0.0 <= target < RunningFree(s, |s|)
    ensures var r := FirstPast(s, target, 0);
            r < |s| && RunningFree(s, r) <= target < RunningFree(s, r + 1)
  {
  }

  lemma SlicesAreDisjoint(s: seq<Slot>, target: real, j: nat, k: nat)
    requires j < |s| && k < |s|
    requires RunningFree(s, j) <= target < RunningFree(s, j + 1)
    requires RunningFree(s, k) <= target < RunningFree(s, k + 1)
    ensures j == k
  {
    if j < k {
      RunningFreeMonotone(s, j + 1, k);
    } else if k < j {
      RunningFreeMonotone(s, k + 1, j);
    }
  }
}
