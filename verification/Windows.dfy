/** What a scan's windows amount to, in terms of the ranking of what had arrived: who is acted on, and in which order. */
module Windows {
  import opened Words
  import opened Holdings
  import opened Acting
  import Ram
  import Selector

  /** The ranking of the first `n` arrivals. */
  function RankedAt(cfg: Config, arrivals: seq<Candidate>, n: nat): seq<Candidate>
    requires n <= |arrivals|
  {
    Selector.Ranking(arrivals[..n], cfg.sizeBias, Ram.PeerLimitForBudget(cfg.ramBudget), cfg.power)
  }

  /** The arrivals so far fill whole batches of sixteen, or are all there will be. */
  predicate ActsAt(arrivals: seq<Candidate>, n: nat) {
    0 < n <= |arrivals| && (n % 16 == 0 || n == |arrivals|)
  }

  ghost predicate HashActedOn(done: seq<Candidate>, h: Hash) {
    exists d :: d in done && d.hash == h
  }

  // ---- one window ----

  lemma {:induction false} WindowExtends(done: seq<Candidate>, window: seq<Candidate>)
    ensures done <= ActWindow(done, window)
  {
    if window != [] {
      WindowExtends(done, window[..|window| - 1]);
    }
  }

  lemma {:induction false} HashesAre(cands: seq<Candidate>, h: Hash)
    ensures h in CandidateHashes(cands) <==> HashActedOn(cands, h)
  {
    if cands != [] {
      var front, last := cands[..|cands| - 1], cands[|cands| - 1];
      HashesAre(front, h);
      assert cands == front + [last];
      if HashActedOn(front, h) {
        var d :| d in front && d.hash == h;
        assert d in cands;
      }
    }
  }

  lemma {:induction false} WindowCovers(done: seq<Candidate>, window: seq<Candidate>, k: nat)
    requires k < |window|
    ensures HashActedOn(ActWindow(done, window), window[k].hash)
  {
    var front, last := window[..|window| - 1], window[|window| - 1];
    var before := ActWindow(done, front);
    HashesAre(before, window[k].hash);
    if k < |window| - 1 {
      WindowCovers(done, front, k);
      var d :| d in before && d.hash == window[k].hash;
      assert d in ActWindow(done, window);
    } else if last.hash !in CandidateHashes(before) {
      assert last in before + [last];
    }
  }

  ghost predicate InOrder(x: Candidate, y: Candidate, ranked: seq<Candidate>, n: nat) {
    exists i, j :: 0 <= i < j < n && j < |ranked| && ranked[i] == x && ranked[j] == y
  }

  /** What a window newly acts on comes from it, in its order. */
  ghost predicate FollowsWindow(done: seq<Candidate>, after: seq<Candidate>, window: seq<Candidate>) {
    && done <= after
    && (forall a :: |done| <= a < |after| ==> after[a] in window)
    && (forall a, b :: |done| <= a < b < |after| ==> InOrder(after[a], after[b], window, |window|))
  }

  lemma OrderInMore(x: Candidate, y: Candidate, front: seq<Candidate>, last: Candidate)
    ensures InOrder(x, y, front, |front|) ==> InOrder(x, y, front + [last], |front| + 1)
    ensures x in front && y == last ==> InOrder(x, y, front + [last], |front| + 1)
  {
    var window := front + [last];
    if InOrder(x, y, front, |front|) {
      var i, j :| 0 <= i < j < |front| && front[i] == x && front[j] == y;
      assert window[i] == x && window[j] == y;
    }
    if x in front && y == last {
      var i :| 0 <= i < |front| && front[i] == x;
      assert window[i] == x && window[|front|] == y;
    }
  }

  lemma FollowsMore(done: seq<Candidate>, before: seq<Candidate>, front: seq<Candidate>, last: Candidate)
    requires FollowsWindow(done, before, front)
    ensures FollowsWindow(done, before, front + [last]) && FollowsWindow(done, before + [last], front + [last])
  {
    var after := before + [last];
    forall a, b | |done| <= a < b < |after| ensures InOrder(after[a], after[b], front + [last], |front| + 1) {
      assert after[a] == before[a];
      OrderInMore(after[a], after[b], front, last);
    }
    forall a, b | |done| <= a < b < |before| ensures InOrder(before[a], before[b], front + [last], |front| + 1) {
      OrderInMore(before[a], before[b], front, last);
    }
  }

  lemma {:induction false} WindowKeepsOrder(done: seq<Candidate>, window: seq<Candidate>)
    ensures FollowsWindow(done, ActWindow(done, window), window)
  {
    if window != [] {
      var front, last := window[..|window| - 1], window[|window| - 1];
      WindowKeepsOrder(done, front);
      FollowsMore(done, ActWindow(done, front), front, last);
      assert window == front + [last];
    }
  }

  lemma {:induction false} WindowSources(done: seq<Candidate>, window: seq<Candidate>, c: Candidate)
    requires c in ActWindow(done, window)
    ensures c in done || c in window
  {
    WindowKeepsOrder(done, window);
    var after := ActWindow(done, window);
    var a :| 0 <= a < |after| && after[a] == c;
    assert a < |done| ==> done[a] == c;
  }

  // ---- a whole scan ----

  lemma {:induction false} DuringGrows(cfg: Config, arrivals: seq<Candidate>, n: nat)
    requires n <= |arrivals|
    ensures ActedDuring(cfg, arrivals[..n]) <= ActedDuring(cfg, arrivals)
  {
    if n == |arrivals| {
      assert arrivals[..n] == arrivals;
    } else {
      var front := arrivals[..|arrivals| - 1];
      DuringGrows(cfg, front, n);
      assert front[..n] == arrivals[..n];
      WindowExtends(ActedDuring(cfg, front), TopWindow(cfg, arrivals));
    }
  }

  /** The candidates acted on once `n` arrivals are in, if they are acted on then. */
  lemma ActedAt(cfg: Config, arrivals: seq<Candidate>, n: nat)
    requires ActsAt(arrivals, n)
    ensures var before := if n % 16 == 0 then ActedDuring(cfg, arrivals[..n - 1]) else ActedDuring(cfg, arrivals);
            ActWindow(before, TopWindow(cfg, arrivals[..n])) <= ActedOn(cfg, arrivals)
  {
    if n % 16 == 0 {
      assert arrivals[..n][..n - 1] == arrivals[..n - 1];
      DuringGrows(cfg, arrivals, n);
      WindowExtends(ActedDuring(cfg, arrivals), TopWindow(cfg, arrivals));
    } else {
      assert arrivals[..n] == arrivals;
    }
  }

  lemma TopIs(cfg: Config, arrivals: seq<Candidate>, n: nat)
    requires n <= |arrivals|
    ensures var r, top := RankedAt(cfg, arrivals, n), TopWindow(cfg, arrivals[..n]);
            |top| == Min(cfg.maxTorrents, |r|) && forall i :: 0 <= i < |top| ==> top[i] == r[i]
  {
  }

  /**
   * Every time a batch of sixteen is full, and at the end, each of the first `maxTorrents` of the ranking of what
   * has arrived is acted on, if its hash was not before. With all arrivals in, that is the final ranking.
   */
  lemma ActsOnTheTop(cfg: Config, arrivals: seq<Candidate>, n: nat, i: nat)
    requires ActsAt(arrivals, n) && i < cfg.maxTorrents && i < |RankedAt(cfg, arrivals, n)|
    ensures exists d :: d in ActedOn(cfg, arrivals) && d.hash == RankedAt(cfg, arrivals, n)[i].hash
  {
    var before := if n % 16 == 0 then ActedDuring(cfg, arrivals[..n - 1]) else ActedDuring(cfg, arrivals);
    var top := TopWindow(cfg, arrivals[..n]);
    TopIs(cfg, arrivals, n);
    WindowCovers(before, top, i);
    ActedAt(cfg, arrivals, n);
    var d :| d in ActWindow(before, top) && d.hash == top[i].hash;
    assert d in ActedOn(cfg, arrivals);
  }

  ghost predicate StoodOnTop(cfg: Config, arrivals: seq<Candidate>, c: Candidate) {
    exists n, i :: ActsAt(arrivals, n) && 0 <= i < cfg.maxTorrents && i < |RankedAt(cfg, arrivals, n)| && RankedAt(cfg, arrivals, n)[i] == c
  }

  lemma FromTop(cfg: Config, arrivals: seq<Candidate>, n: nat, c: Candidate)
    requires ActsAt(arrivals, n) && c in TopWindow(cfg, arrivals[..n])
    ensures StoodOnTop(cfg, arrivals, c)
  {
    TopIs(cfg, arrivals, n);
    var top := TopWindow(cfg, arrivals[..n]);
    var i :| 0 <= i < |top| && top[i] == c;
    assert RankedAt(cfg, arrivals, n)[i] == c;
  }

  lemma {:induction false} DuringStoodOnTop(cfg: Config, arrivals: seq<Candidate>, n: nat, c: Candidate)
    requires n <= |arrivals| && c in ActedDuring(cfg, arrivals[..n])
    ensures StoodOnTop(cfg, arrivals, c)
  {
    if n > 0 {
      assert arrivals[..n][..n - 1] == arrivals[..n - 1];
      if c in ActedDuring(cfg, arrivals[..n - 1]) {
        DuringStoodOnTop(cfg, arrivals, n - 1, c);
      } else {
        WindowSources(ActedDuring(cfg, arrivals[..n - 1]), TopWindow(cfg, arrivals[..n]), c);
        FromTop(cfg, arrivals, n, c);
      }
    }
  }

  /** And no candidate is acted on that did not stand there, when a batch was full or at the end. */
  lemma ActsOnNoOther(cfg: Config, arrivals: seq<Candidate>, c: Candidate)
    requires c in ActedOn(cfg, arrivals)
    ensures exists n, i :: ActsAt(arrivals, n) && 0 <= i < cfg.maxTorrents && i < |RankedAt(cfg, arrivals, n)|
                           && RankedAt(cfg, arrivals, n)[i] == c
  {
    assert arrivals[..|arrivals|] == arrivals;
    if c in ActedDuring(cfg, arrivals) {
      DuringStoodOnTop(cfg, arrivals, |arrivals|, c);
    } else {
      WindowSources(ActedDuring(cfg, arrivals), TopWindow(cfg, arrivals), c);
      FromTop(cfg, arrivals, |arrivals|, c);
    }
    assert StoodOnTop(cfg, arrivals, c);
  }

  /** What `before` was acted on stays, and what comes after follows the first `maxTorrents` of the ranking, in its order. */
  ghost predicate InRankingOrder(cfg: Config, before: seq<Candidate>, after: seq<Candidate>, ranked: seq<Candidate>) {
    && before <= after
    && (forall a, b :: |before| <= a < b < |after| ==>
          exists i, j :: 0 <= i < j < cfg.maxTorrents && j < |ranked| && ranked[i] == after[a] && ranked[j] == after[b])
  }

  /** Within one window candidates are acted on in ranking order; between windows nobody is acted on. */
  lemma ActsInRankingOrder(cfg: Config, arrivals: seq<Candidate>, n: nat)
    requires 0 < n <= |arrivals|
    ensures n % 16 == 0 ==>
              InRankingOrder(cfg, ActedDuring(cfg, arrivals[..n - 1]), ActedDuring(cfg, arrivals[..n]), RankedAt(cfg, arrivals, n))
    ensures n % 16 != 0 ==> ActedDuring(cfg, arrivals[..n]) == ActedDuring(cfg, arrivals[..n - 1])
    ensures |arrivals| % 16 != 0 ==>
              InRankingOrder(cfg, ActedDuring(cfg, arrivals), ActedOn(cfg, arrivals), RankedAt(cfg, arrivals, |arrivals|))
    ensures |arrivals| % 16 == 0 ==> ActedOn(cfg, arrivals) == ActedDuring(cfg, arrivals)
  {
    assert arrivals[..n][..n - 1] == arrivals[..n - 1] && arrivals[..|arrivals|] == arrivals;
    WindowInRankingOrder(cfg, arrivals, n, ActedDuring(cfg, arrivals[..n - 1]));
    WindowInRankingOrder(cfg, arrivals, |arrivals|, ActedDuring(cfg, arrivals));
  }

  lemma WindowInRankingOrder(cfg: Config, arrivals: seq<Candidate>, n: nat, before: seq<Candidate>)
    requires n <= |arrivals|
    ensures InRankingOrder(cfg, before, ActWindow(before, TopWindow(cfg, arrivals[..n])), RankedAt(cfg, arrivals, n))
  {
    var top := TopWindow(cfg, arrivals[..n]);
    var after, ranked := ActWindow(before, top), RankedAt(cfg, arrivals, n);
    TopIs(cfg, arrivals, n);
    WindowKeepsOrder(before, top);
    forall a, b | |before| <= a < b < |after|
      ensures exists i, j :: 0 <= i < j < cfg.maxTorrents && j < |ranked| && ranked[i] == after[a] && ranked[j] == after[b]
    {
      assert InOrder(after[a], after[b], top, |top|);
      var i, j :| 0 <= i < j < |top| && top[i] == after[a] && top[j] == after[b];
      assert ranked[i] == after[a] && ranked[j] == after[b];
    }
  }
}
