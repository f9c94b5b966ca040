/**
 * The rolling bandwidth log: one entry per elapsed span, pruned to the day window.
 * Instants and durations are whole nanoseconds.
 */
module Bandwidth {
  import opened Words

  const SECOND: nat := 1_000_000_000
  const DAY: nat := 86_400_000_000_000
  const MAX_ENTRIES: nat := 1500

  /** The two counters, sent and received. */
  datatype Direction = Up | Down

  datatype Entry = Entry(start: int, span: nat, up: nat, down: nat) {
    function Bytes(d: Direction): nat {
      if d == Up then up else down
    }

    function End(): int {
      start + span
    }
  }

  datatype Log = Log(entries: seq<Entry>, lastUp: nat, lastDown: nat, lastTick: int, started: int)

  datatype Rate = Rate(up: real, down: real)

  function Elapsed(now: int, since: int): nat {
    if now >= since then now - since else 0
  }

  // ---- tick ----

  /** The log with the delta since the last tick appended, nothing pruned. */
  function Pushed(log: Log, now: int, up: nat, down: nat): Log {
    var span := Elapsed(now, log.lastTick);
    var e := Entry(log.lastTick, span, SatSub(up, log.lastUp), SatSub(down, log.lastDown));
    var entries :=
      if span > 0 && (e.up > 0 || e.down > 0 || log.entries == []) then log.entries + [e] else log.entries;
    log.(entries := entries, lastUp := up, lastDown := down, lastTick := now)
  }

  /** The first entry, from `k` on, that still reaches into the day window. */
  function FirstLive(entries: seq<Entry>, now: int, k: nat): (r: nat)
    requires k <= |entries|
    ensures k <= r <= |entries|
    decreases |entries| - k
  {
    if k < |entries| && Elapsed(now, entries[k].End()) > DAY then FirstLive(entries, now, k + 1) else k
  }

  /** How many entries a tick pops: the expired front, then whatever still exceeds the cap. */
  function Popped(entries: seq<Entry>, now: int): (r: nat)
    ensures FirstLive(entries, now, 0) <= r <= |entries|
  {
    Max(FirstLive(entries, now, 0), |entries| - MAX_ENTRIES)
  }

  function Ticked(log: Log, now: int, up: nat, down: nat): Log {
    var pushed := Pushed(log, now, up, down);
    if Elapsed(now, log.lastTick) == 0 then pushed
    else pushed.(entries := pushed.entries[Popped(pushed.entries, now)..])
  }

  // ---- rate ----

  /** The part of an entry inside the window `[winStart, now)`. */
  function Overlap(e: Entry, winStart: int, now: int): nat {
    Elapsed(Min(e.End(), now), Max(e.start, winStart))
  }

  /** Bytes attributed to the overlap, truncated to whole bytes. */
  function Share(bytes: nat, e: Entry, winStart: int, now: int): nat {
    if e.span == 0 then 0 else bytes * Overlap(e, winStart, now) / e.span
  }

  function Within(d: Direction, entries: seq<Entry>, winStart: int, now: int): nat {
    if entries == [] then 0
    else Within(d, entries[..|entries| - 1], winStart, now)
         + Share(entries[|entries| - 1].Bytes(d), entries[|entries| - 1], winStart, now)
  }

  function EffectiveWindow(log: Log, now: int, window: nat): nat {
    Min(window, Elapsed(now, log.started))
  }

  function PerSecond(bytes: nat, ns: nat): real
    requires ns > 0
  {
    SecondsArePositive(ns);
    bytes as real / (ns as real / SECOND as real)
  }

  lemma SecondsArePositive(ns: nat)
    requires ns > 0
    ensures ns as real / SECOND as real > 0.0
  {
  }

  function RateOf(log: Log, now: int, window: nat): Rate {
    var effective := EffectiveWindow(log, now, window);
    if effective == 0 then Rate(0.0, 0.0)
    else
      Rate(PerSecond(Within(Up, log.entries, now - effective, now), effective),
           PerSecond(Within(Down, log.entries, now - effective, now), effective))
  }

  class RateTracker {
    var entries: seq<Entry>
    var lastUp: nat
    var lastDown: nat
    var lastTick: int
    const started: int

    function View(): Log
      reads this
    {
      Log(entries, lastUp, lastDown, lastTick, started)
    }

    constructor (started: int, upTotal: nat, downTotal: nat)
      ensures View() == Log([], upTotal, downTotal, started, started)
    {
      this.started := started;
      entries, lastUp, lastDown, lastTick := [], upTotal, downTotal, started;
    }

    method Tick(now: int, upTotal: nat, downTotal: nat)
      modifies this
      ensures View() == Ticked(old(View()), now, upTotal, downTotal)
    {
      var span := Elapsed(now, lastTick);
      var up := SatSub(upTotal, lastUp);
      var down := SatSub(downTotal, lastDown);
      var start := lastTick;
      lastUp, lastDown, lastTick := upTotal, downTotal, now;
      if span == 0 {
        return;
      }
      if up > 0 || down > 0 || |entries| == 0 {
        entries := entries + [Entry(start, span, up, down)];
      }
      Prune(now);
    }

    /** Expired entries leave the front, then whatever still exceeds the cap. */
    method Prune(now: int)
      modifies this`entries
      ensures entries == old(entries)[Popped(old(entries), now)..]
    {
      ghost var pushed, k := entries, 0;
      while |entries| > 0 && Elapsed(now, entries[0].End()) > DAY
        invariant k <= |pushed| && entries == pushed[k..]
        invariant FirstLive(pushed, now, k) == FirstLive(pushed, now, 0)
        decreases |entries|
      {
        entries := entries[1..];
        k := k + 1;
      }
      ghost var live := k;
      while |entries| > MAX_ENTRIES
        invariant live <= k <= |pushed| && entries == pushed[k..]
        invariant k == live || k <= |pushed| - MAX_ENTRIES
        decreases |entries|
      {
        entries := entries[1..];
        k := k + 1;
      }
    }

    method QueryRate(now: int, window: nat) returns (rate: Rate)
      ensures rate == RateOf(View(), now, window)
    {
      var effective := Min(window, Elapsed(now, started));
      if effective == 0 {
        return Rate(0.0, 0.0);
      }
      var winStart := now - effective;
      var up, down := 0, 0;
      var k := 0;
      while k < |entries|
        invariant 0 <= k <= |entries|
        invariant up == Within(Up, entries[..k], winStart, now)
        invariant down == Within(Down, entries[..k], winStart, now)
      {
        assert entries[..k + 1][..k] == entries[..k];
        up := up + Share(entries[k].up, entries[k], winStart, now);
        down := down + Share(entries[k].down, entries[k], winStart, now);
        k := k + 1;
      }
      assert entries[..|entries|] == entries;
      return Rate(PerSecond(up, effective), PerSecond(down, effective));
    }
  }

  // ---- the pruned log against the full one ----

  datatype Sample = Sample(now: int, up: nat, down: nat) {
    function Count(d: Direction): nat {
      if d == Up then up else down
    }
  }

  function Boot(started: int, up: nat, down: nat): Log {
    Log([], up, down, started, started)
  }

  function PrunedLog(boot: Log, samples: seq<Sample>): Log {
    if samples == [] then boot
    else
      var s := samples[|samples| - 1];
      Ticked(PrunedLog(boot, samples[..|samples| - 1]), s.now, s.up, s.down)
  }

  function FullLog(boot: Log, samples: seq<Sample>): Log {
    if samples == [] then boot
    else
      var s := samples[|samples| - 1];
      Pushed(FullLog(boot, samples[..|samples| - 1]), s.now, s.up, s.down)
  }

  /** The entries that moved bytes; the others only anchor an idle boot. */
  function Moving(entries: seq<Entry>): seq<Entry> {
    if entries == [] then []
    else
      var e := entries[|entries| - 1];
      Moving(entries[..|entries| - 1]) + (if e.up > 0 || e.down > 0 then [e] else [])
  }

  lemma {:induction false} MovingConcat(a: seq<Entry>, b: seq<Entry>)
    ensures Moving(a + b) == Moving(a) + Moving(b)
  {
    if b == [] {
      assert a + b == a;
    } else {
      MovingConcat(a, b[..|b| - 1]);
      assert (a + b)[..|a + b| - 1] == a + b[..|b| - 1];
    }
  }

  lemma {:induction false} MovingMembers(entries: seq<Entry>, e: Entry)
    ensures e in Moving(entries) ==> e in entries
  {
    if entries != [] {
      MovingMembers(entries[..|entries| - 1], e);
    }
  }

  /** What the pruned log keeps of the full one, `dropped` being what it no longer has. */
  ghost predicate Agrees(pruned: Log, full: Log, dropped: seq<Entry>) {
    && pruned.(entries := []) == full.(entries := [])
    && Moving(full.entries) == dropped + Moving(pruned.entries)
  }

  ghost predicate AllExpired(entries: seq<Entry>, now: int) {
    forall e :: e in entries ==> Elapsed(now, e.End()) > DAY
  }

  function Before(boot: Log, samples: seq<Sample>): Sample {
    if samples == [] then Sample(boot.lastTick, boot.lastUp, boot.lastDown) else samples[|samples| - 1]
  }

  ghost predicate ClockRuns(boot: Log, samples: seq<Sample>) {
    samples != [] ==>
      var before := samples[..|samples| - 1];
      ClockRuns(boot, before) && samples[|samples| - 1].now >= Before(boot, before).now
  }

  predicate CapIdleAt(entries: seq<Entry>, now: int) {
    |entries| - FirstLive(entries, now, 0) <= MAX_ENTRIES
  }

  lemma {:induction false} ExpiredFront(entries: seq<Entry>, now: int, k: nat)
    requires k <= |entries|
    ensures AllExpired(entries[k..FirstLive(entries, now, k)], now)
    decreases |entries| - k
  {
    var r := FirstLive(entries, now, k);
    if k < r {
      ExpiredFront(entries, now, k + 1);
      assert entries[k..r] == [entries[k]] + entries[k + 1..r];
    }
  }

  /** The 1500-entry cap never had to drop an entry. */
  ghost predicate CapIdle(boot: Log, samples: seq<Sample>) {
    samples != [] ==>
      var before, s := samples[..|samples| - 1], samples[|samples| - 1];
      && CapIdle(boot, before)
      && CapIdleAt(Pushed(PrunedLog(boot, before), s.now, s.up, s.down).entries, s.now)
  }

  lemma {:induction false} LastInstant(boot: Log, samples: seq<Sample>)
    ensures Before(boot, samples) == var p := PrunedLog(boot, samples); Sample(p.lastTick, p.lastUp, p.lastDown)
    ensures Before(boot, samples) == var f := FullLog(boot, samples); Sample(f.lastTick, f.lastUp, f.lastDown)
  {
  }

  /** Pruning only ever drops a prefix, whatever the clock and the cap do. */
  lemma {:induction false} PruningDropsPrefix(boot: Log, samples: seq<Sample>) returns (dropped: seq<Entry>)
    requires boot.entries == []
    ensures Agrees(PrunedLog(boot, samples), FullLog(boot, samples), dropped)
    ensures ClockRuns(boot, samples) && CapIdle(boot, samples) ==> AllExpired(dropped, Before(boot, samples).now)
  {
    if samples == [] {
      dropped := [];
    } else {
      var before, s := samples[..|samples| - 1], samples[|samples| - 1];
      var was := PruningDropsPrefix(boot, before);
      LastInstant(boot, before);
      dropped := TickAgrees(PrunedLog(boot, before), FullLog(boot, before), was, s);
    }
  }

  lemma TickAgrees(p: Log, f: Log, was: seq<Entry>, s: Sample) returns (dropped: seq<Entry>)
    requires Agrees(p, f, was)
    ensures Agrees(Ticked(p, s.now, s.up, s.down), Pushed(f, s.now, s.up, s.down), dropped)
    ensures s.now >= p.lastTick && AllExpired(was, p.lastTick) && CapIdleAt(Pushed(p, s.now, s.up, s.down).entries, s.now)
            ==> AllExpired(dropped, s.now)
  {
    PushAgrees(p, f, was, s);
    var cut := TickCuts(p, s);
    dropped := was + Moving(cut);
    var kept := Moving(Ticked(p, s.now, s.up, s.down).entries);
    assert was + (Moving(cut) + kept) == dropped + kept;
    ExpiredTogether(was, cut, p.lastTick, s.now);
  }

  lemma ExpiredTogether(was: seq<Entry>, cut: seq<Entry>, at: int, now: int)
    ensures AllExpired(was, at) && now >= at && AllExpired(cut, now) ==> AllExpired(was + Moving(cut), now)
  {
    forall e | e in Moving(cut) ensures e in cut {
      MovingMembers(cut, e);
    }
  }

  /** A tick drops a front part of the pushed log, all of it expired unless the cap bites. */
  lemma TickCuts(p: Log, s: Sample) returns (cut: seq<Entry>)
    ensures var pushed := Pushed(p, s.now, s.up, s.down);
            var ticked := Ticked(p, s.now, s.up, s.down);
            && ticked.(entries := []) == pushed.(entries := [])
            && Moving(pushed.entries) == Moving(cut) + Moving(ticked.entries)
            && (CapIdleAt(pushed.entries, s.now) ==> AllExpired(cut, s.now))
  {
    var pushed := Pushed(p, s.now, s.up, s.down).entries;
    var n := if Elapsed(s.now, p.lastTick) == 0 then 0 else Popped(pushed, s.now);
    cut := pushed[..n];
    assert pushed == cut + pushed[n..];
    MovingConcat(cut, pushed[n..]);
    ExpiredFront(pushed, s.now, 0);
  }

  lemma MovingSnoc(entries: seq<Entry>, e: Entry)
    ensures Moving(entries + [e]) == Moving(entries) + (if e.up > 0 || e.down > 0 then [e] else [])
  {
    assert (entries + [e])[..|entries|] == entries;
  }

  function Delta(log: Log, s: Sample): Entry {
    Entry(log.lastTick, Elapsed(s.now, log.lastTick), SatSub(s.up, log.lastUp), SatSub(s.down, log.lastDown))
  }

  lemma PushedMoving(log: Log, s: Sample)
    ensures var e := Delta(log, s);
            Moving(Pushed(log, s.now, s.up, s.down).entries)
            == Moving(log.entries) + (if e.span > 0 && (e.up > 0 || e.down > 0) then [e] else [])
  {
    MovingSnoc(log.entries, Delta(log, s));
    assert Moving(log.entries) + [] == Moving(log.entries);
  }

  lemma PushedClock(p: Log, f: Log, s: Sample)
    requires p.(entries := []) == f.(entries := [])
    ensures Pushed(p, s.now, s.up, s.down).(entries := []) == Pushed(f, s.now, s.up, s.down).(entries := [])
    ensures Delta(p, s) == Delta(f, s)
  {
  }

  lemma PushAgrees(p: Log, f: Log, dropped: seq<Entry>, s: Sample)
    requires Agrees(p, f, dropped)
    ensures Agrees(Pushed(p, s.now, s.up, s.down), Pushed(f, s.now, s.up, s.down), dropped)
  {
    PushedClock(p, f, s);
    PushedMoving(p, s);
    PushedMoving(f, s);
    var e := Delta(p, s);
    var more := if e.span > 0 && (e.up > 0 || e.down > 0) then [e] else [];
    AgreesAfter(p, f, Pushed(p, s.now, s.up, s.down), Pushed(f, s.now, s.up, s.down), dropped, more);
  }

  lemma AgreesAfter(p: Log, f: Log, p1: Log, f1: Log, dropped: seq<Entry>, more: seq<Entry>)
    requires Agrees(p, f, dropped) && p1.(entries := []) == f1.(entries := [])
    requires Moving(p1.entries) == Moving(p.entries) + more && Moving(f1.entries) == Moving(f.entries) + more
    ensures Agrees(p1, f1, dropped)
  {
    assert dropped + Moving(p.entries) + more == dropped + (Moving(p.entries) + more);
  }

  lemma {:induction false} WithinConcat(d: Direction, a: seq<Entry>, b: seq<Entry>, winStart: int, now: int)
    ensures Within(d, a + b, winStart, now) == Within(d, a, winStart, now) + Within(d, b, winStart, now)
  {
    if b == [] {
      assert a + b == a;
    } else {
      WithinConcat(d, a, b[..|b| - 1], winStart, now);
      assert (a + b)[..|a + b| - 1] == a + b[..|b| - 1];
    }
  }

  lemma NoBytesNoShare(e: Entry, winStart: int, now: int)
    ensures Share(0, e, winStart, now) == 0
  {
    assert 0 * Overlap(e, winStart, now) == 0;
  }

  lemma WithinSnoc(d: Direction, entries: seq<Entry>, e: Entry, winStart: int, now: int)
    ensures Within(d, entries + [e], winStart, now) == Within(d, entries, winStart, now) + Share(e.Bytes(d), e, winStart, now)
  {
    assert (entries + [e])[..|entries|] == entries;
  }

  /** Entries that moved nothing contribute nothing. */
  lemma {:induction false} WithinMoving(d: Direction, entries: seq<Entry>, winStart: int, now: int)
    ensures Within(d, Moving(entries), winStart, now) == Within(d, entries, winStart, now)
  {
    if entries != [] {
      var rest, e := entries[..|entries| - 1], entries[|entries| - 1];
      WithinMoving(d, rest, winStart, now);
      NoBytesNoShare(e, winStart, now);
      MovingSnoc(rest, e);
      WithinSnoc(d, Moving(rest), e, winStart, now);
      WithinSnoc(d, rest, e, winStart, now);
      assert rest + [e] == entries;
      assert Moving(rest) + [] == Moving(rest);
    }
  }

  /** Entries that ended before the window contribute nothing. */
  lemma {:induction false} WithinExpired(d: Direction, entries: seq<Entry>, winStart: int, now: int)
    requires forall e :: e in entries ==> e.End() <= winStart
    ensures Within(d, entries, winStart, now) == 0
  {
    if entries != [] {
      var e := entries[|entries| - 1];
      assert e in entries;
      WithinExpired(d, entries[..|entries| - 1], winStart, now);
      assert Overlap(e, winStart, now) == 0;
    }
  }

  /** Dropping what ended before the window changes no sum over it. */
  lemma SumsAgree(d: Direction, p: seq<Entry>, f: seq<Entry>, dropped: seq<Entry>, winStart: int, now: int)
    requires Moving(f) == dropped + Moving(p)
    requires forall e :: e in dropped ==> e.End() <= winStart
    ensures Within(d, p, winStart, now) == Within(d, f, winStart, now)
  {
    WithinMoving(d, p, winStart, now);
    WithinMoving(d, f, winStart, now);
    WithinConcat(d, dropped, Moving(p), winStart, now);
    WithinExpired(d, dropped, winStart, now);
  }

  lemma RateBySums(p: Log, f: Log, now: int, window: nat)
    requires p.started == f.started
    requires var winStart := now - EffectiveWindow(f, now, window);
             && Within(Up, p.entries, winStart, now) == Within(Up, f.entries, winStart, now)
             && Within(Down, p.entries, winStart, now) == Within(Down, f.entries, winStart, now)
    ensures RateOf(p, now, window) == RateOf(f, now, window)
  {
  }

  /**
   * Pruning is invisible to queries: with a clock that does not run backwards and a cap that never
   * bites, every rate over a window of up to a day is the rate over the log that keeps everything.
   */
  lemma PrunedRateIsFullRate(boot: Log, samples: seq<Sample>, now: int, window: nat)
    requires boot.entries == [] && ClockRuns(boot, samples) && CapIdle(boot, samples)
    requires window <= DAY && now >= Before(boot, samples).now
    ensures RateOf(PrunedLog(boot, samples), now, window) == RateOf(FullLog(boot, samples), now, window)
  {
    var dropped := PruningDropsPrefix(boot, samples);
    AgreeingRates(PrunedLog(boot, samples), FullLog(boot, samples), dropped, Before(boot, samples).now, now, window);
  }

  lemma AgreeingRates(p: Log, f: Log, dropped: seq<Entry>, at: int, now: int, window: nat)
    requires Agrees(p, f, dropped) && AllExpired(dropped, at) && now >= at && window <= DAY
    ensures RateOf(p, now, window) == RateOf(f, now, window)
  {
    var winStart := now - EffectiveWindow(f, now, window);
    ExpiredBeforeWindow(dropped, at, winStart);
    SumsAgree(Up, p.entries, f.entries, dropped, winStart, now);
    SumsAgree(Down, p.entries, f.entries, dropped, winStart, now);
    RateBySums(p, f, now, window);
  }

  lemma ExpiredBeforeWindow(entries: seq<Entry>, at: int, winStart: int)
    requires AllExpired(entries, at) && winStart >= at - DAY
    ensures forall e :: e in entries ==> e.End() <= winStart
  {
  }

  // ---- conservation ----

  function Total(d: Direction, entries: seq<Entry>): nat {
    if entries == [] then 0 else Total(d, entries[..|entries| - 1]) + entries[|entries| - 1].Bytes(d)
  }

  lemma {:induction false} TotalConcat(d: Direction, a: seq<Entry>, b: seq<Entry>)
    ensures Total(d, a + b) == Total(d, a) + Total(d, b)
  {
    if b == [] {
      assert a + b == a;
    } else {
      TotalConcat(d, a, b[..|b| - 1]);
      assert (a + b)[..|a + b| - 1] == a + b[..|b| - 1];
    }
  }

  lemma {:induction false} TotalMoving(d: Direction, entries: seq<Entry>)
    ensures Total(d, Moving(entries)) == Total(d, entries)
  {
    if entries != [] {
      var rest, e := entries[..|entries| - 1], entries[|entries| - 1];
      TotalMoving(d, rest);
      TotalConcat(d, Moving(rest), if e.up > 0 || e.down > 0 then [e] else []);
      assert Total(d, [e]) == Total(d, []) + e.Bytes(d);
    }
  }

  /** Bytes of growth seen by ticks at which no time had passed. */
  function LostToZeroSpans(d: Direction, boot: Log, samples: seq<Sample>): nat {
    if samples == [] then 0
    else
      var before, s := samples[..|samples| - 1], samples[|samples| - 1];
      LostToZeroSpans(d, boot, before)
      + (if Elapsed(s.now, Before(boot, before).now) == 0 then SatSub(s.Count(d), Before(boot, before).Count(d)) else 0)
  }

  ghost predicate CounterMonotone(d: Direction, boot: Log, samples: seq<Sample>) {
    samples != [] ==>
      var before := samples[..|samples| - 1];
      CounterMonotone(d, boot, before) && samples[|samples| - 1].Count(d) >= Before(boot, before).Count(d)
  }

  /**
   * Every byte sent or received is accounted for: what the log still records, what pruning dropped, and
   * what ticks at an unchanged instant swallowed add up to the growth of a monotone counter.
   */
  lemma BytesAreConserved(d: Direction, boot: Log, samples: seq<Sample>) returns (dropped: seq<Entry>)
    requires boot.entries == [] && CounterMonotone(d, boot, samples)
    ensures Agrees(PrunedLog(boot, samples), FullLog(boot, samples), dropped)
    ensures Total(d, PrunedLog(boot, samples).entries) + Total(d, dropped) + LostToZeroSpans(d, boot, samples)
         == Before(boot, samples).Count(d) - Before(boot, []).Count(d)
  {
    dropped := PruningDropsPrefix(boot, samples);
    FullLogGrowth(d, boot, samples);
    TotalMoving(d, PrunedLog(boot, samples).entries);
    TotalMoving(d, FullLog(boot, samples).entries);
    TotalConcat(d, dropped, Moving(PrunedLog(boot, samples).entries));
  }

  lemma TotalSnoc(d: Direction, entries: seq<Entry>, e: Entry)
    ensures Total(d, entries + [e]) == Total(d, entries) + e.Bytes(d)
  {
    assert (entries + [e])[..|entries|] == entries;
  }

  lemma PushedTotal(d: Direction, log: Log, s: Sample)
    ensures Total(d, Pushed(log, s.now, s.up, s.down).entries)
         == Total(d, log.entries) + (if Delta(log, s).span > 0 then Delta(log, s).Bytes(d) else 0)
  {
    TotalSnoc(d, log.entries, Delta(log, s));
  }

  lemma DeltaIsGrowth(d: Direction, log: Log, s: Sample, before: Sample)
    requires before == Sample(log.lastTick, log.lastUp, log.lastDown)
    ensures Delta(log, s).span == Elapsed(s.now, before.now) && Delta(log, s).Bytes(d) == SatSub(s.Count(d), before.Count(d))
  {
  }

  lemma {:induction false} FullLogGrowth(d: Direction, boot: Log, samples: seq<Sample>)
    requires boot.entries == [] && CounterMonotone(d, boot, samples)
    ensures Before(boot, samples).Count(d) >= Before(boot, []).Count(d)
    ensures Total(d, FullLog(boot, samples).entries) + LostToZeroSpans(d, boot, samples)
         == Before(boot, samples).Count(d) - Before(boot, []).Count(d)
  {
    if samples != [] {
      var before, s := samples[..|samples| - 1], samples[|samples| - 1];
      FullLogGrowth(d, boot, before);
      LastInstant(boot, before);
      DeltaIsGrowth(d, FullLog(boot, before), s, Before(boot, before));
      PushedTotal(d, FullLog(boot, before), s);
    }
  }

  /** Nothing is swallowed exactly when no tick at an unchanged (or earlier) instant carries growth. */
  lemma {:induction false} NothingLostExactlyOnMovingClock(d: Direction, boot: Log, samples: seq<Sample>)
    ensures LostToZeroSpans(d, boot, samples) == 0 <==>
      forall k :: 0 <= k < |samples| ==>
        (samples[k].now > Before(boot, samples[..k]).now || samples[k].Count(d) <= Before(boot, samples[..k]).Count(d))
  {
    if samples != [] {
      var before := samples[..|samples| - 1];
      NothingLostExactlyOnMovingClock(d, boot, before);
      forall k | 0 <= k < |before| ensures samples[..k] == before[..k] && samples[k] == before[k] {
      }
    }
  }

  /** Two ticks at one instant: the second one's ten bytes are never recorded. */
  lemma ZeroSpanTickLosesBytes()
    ensures var samples := [Sample(SECOND, 10, 0), Sample(SECOND, 20, 0)];
            && PrunedLog(Boot(0, 0, 0), samples).entries == [Entry(0, SECOND, 10, 0)]
            && LostToZeroSpans(Up, Boot(0, 0, 0), samples) == 10
  {
    var samples := [Sample(SECOND, 10, 0), Sample(SECOND, 20, 0)];
    assert samples[..1] == [samples[0]];
    assert [samples[0]][..0] == [];
    var boot := Boot(0, 0, 0);
    var first := [Entry(0, SECOND, 10, 0)];
    assert Pushed(boot, SECOND, 10, 0) == Log(first, 10, 0, SECOND, 0);
    assert Popped(first, SECOND) == 0;
    assert PrunedLog(boot, [samples[0]]) == Ticked(boot, SECOND, 10, 0) == Log(first, 10, 0, SECOND, 0);
    assert PrunedLog(boot, samples) == Ticked(Log(first, 10, 0, SECOND, 0), SECOND, 20, 0);
    assert LostToZeroSpans(Up, boot, [samples[0]]) == 0;
  }

  // ---- truncation ----

  ghost predicate Disjoint(entries: seq<Entry>) {
    && (forall k :: 0 <= k < |entries| ==> entries[k].span > 0)
    && (forall j, k :: 0 <= j < k < |entries| ==> entries[j].End() <= entries[k].start)
  }

  ghost predicate WellPlaced(log: Log) {
    Disjoint(log.entries) && forall k :: 0 <= k < |log.entries| ==> log.entries[k].End() <= log.lastTick
  }

  lemma TickKeepsPlaces(log: Log, s: Sample)
    requires WellPlaced(log) && s.now >= log.lastTick
    ensures WellPlaced(Ticked(log, s.now, s.up, s.down))
  {
    assert WellPlaced(Pushed(log, s.now, s.up, s.down));
  }

  /** With a clock that does not run backwards, the spans are disjoint, in order, and in the past. */
  lemma {:induction false} EntriesAreDisjoint(boot: Log, samples: seq<Sample>)
    requires boot.entries == [] && ClockRuns(boot, samples)
    ensures WellPlaced(PrunedLog(boot, samples))
  {
    if samples != [] {
      var before := samples[..|samples| - 1];
      EntriesAreDisjoint(boot, before);
      LastInstant(boot, before);
      TickKeepsPlaces(PrunedLog(boot, before), samples[|samples| - 1]);
    }
  }

  function ExactShare(bytes: nat, e: Entry, winStart: int, now: int): real
    requires e.span > 0
  {
    (bytes * Overlap(e, winStart, now)) as real / e.span as real
  }

  function Exact(d: Direction, entries: seq<Entry>, winStart: int, now: int): real
    requires forall k :: 0 <= k < |entries| ==> entries[k].span > 0
  {
    if entries == [] then 0.0
    else Exact(d, entries[1..], winStart, now) + ExactShare(entries[0].Bytes(d), entries[0], winStart, now)
  }

  lemma {:induction false} WithinFront(d: Direction, entries: seq<Entry>, winStart: int, now: int)
    requires entries != []
    ensures Within(d, entries, winStart, now)
         == Share(entries[0].Bytes(d), entries[0], winStart, now) + Within(d, entries[1..], winStart, now)
  {
    assert entries == [entries[0]] + entries[1..];
    WithinConcat(d, [entries[0]], entries[1..], winStart, now);
    assert Within(d, [entries[0]], winStart, now) == Within(d, [], winStart, now) + Share(entries[0].Bytes(d), entries[0], winStart, now);
  }

  lemma ShareTruncates(bytes: nat, e: Entry, winStart: int, now: int)
    requires e.span > 0
    ensures Share(bytes, e, winStart, now) as real <= ExactShare(bytes, e, winStart, now) < Share(bytes, e, winStart, now) as real + 1.0
  {
    var n := bytes * Overlap(e, winStart, now);
    var q := n / e.span;
    QuotientBrackets(n, e.span);
    RealQuotient(n, e.span, q);
  }

  lemma QuotientWithin(a: real, d: real, q: real)
    requires d > 0.0 && q * d <= a < (q + 1.0) * d
    ensures q <= a / d < q + 1.0
  {
    var x := a / d;
    TimesItsDivisor(a, d);
    Cancel(x, q + 1.0, d);
    Cancel(x, q, d);
  }

  lemma TimesItsDivisor(a: real, d: real)
    requires d > 0.0
    ensures a / d * d == a
  {
  }

  lemma RealQuotient(n: nat, d: nat, q: nat)
    requires d > 0 && q * d <= n < (q + 1) * d
    ensures q as real <= n as real / d as real < q as real + 1.0
  {
    ProductAsReal(q, d);
    ProductAsReal(q + 1, d);
    assert (q + 1) as real == q as real + 1.0;
    QuotientWithin(n as real, d as real, q as real);
  }

  lemma ProductAsReal(q: nat, d: nat)
    ensures (q * d) as real == q as real * d as real
  {
  }

  lemma WholeShareIsExact(bytes: nat, e: Entry, winStart: int, now: int)
    requires e.span > 0 && winStart <= e.start && e.End() <= now
    ensures ExactShare(bytes, e, winStart, now) == bytes as real == Share(bytes, e, winStart, now) as real
  {
    assert Overlap(e, winStart, now) == e.span;
    WholeQuotient(bytes, e.span);
  }

  lemma WholeQuotient(n: nat, d: nat)
    requires d > 0
    ensures n * d / d == n && (n * d) as real / d as real == n as real
  {
    assert (n * d) as real == n as real * d as real;
    var q := n * d / d;
    QuotientBrackets(n * d, d);
    CancelInt(n, q + 1, d);
    CancelInt(n, q, d);
  }

  lemma CancelInt(a: int, b: int, c: int)
    requires c > 0
    ensures a * c < b * c <==> a < b
  {
  }

  lemma {:induction false} InsideIsExact(d: Direction, entries: seq<Entry>, winStart: int, now: int)
    requires Disjoint(entries) && forall e :: e in entries ==> winStart <= e.start && e.End() <= now
    ensures Exact(d, entries, winStart, now) == Within(d, entries, winStart, now) as real
  {
    if entries != [] {
      assert entries[0] in entries;
      WholeShareIsExact(entries[0].Bytes(d), entries[0], winStart, now);
      WithinFront(d, entries, winStart, now);
      InsideIsExact(d, entries[1..], winStart, now);
    }
  }

  lemma ExpiredShare(bytes: nat, e: Entry, winStart: int, now: int)
    requires e.span > 0 && e.End() <= winStart
    ensures Share(bytes, e, winStart, now) == 0 && ExactShare(bytes, e, winStart, now) == 0.0
  {
    assert bytes * Overlap(e, winStart, now) == 0;
  }

  /** Only the entry straddling the window start is truncated, so a sum is short by less than one byte. */
  lemma {:induction false} TruncationUnderOneByte(d: Direction, entries: seq<Entry>, winStart: int, now: int)
    requires Disjoint(entries) && forall e :: e in entries ==> e.End() <= now
    ensures Within(d, entries, winStart, now) as real <= Exact(d, entries, winStart, now)
          < Within(d, entries, winStart, now) as real + 1.0
  {
    if entries != [] {
      var e := entries[0];
      assert e in entries;
      WithinFront(d, entries, winStart, now);
      ShareTruncates(e.Bytes(d), e, winStart, now);
      if e.End() <= winStart {
        ExpiredShare(e.Bytes(d), e, winStart, now);
        TruncationUnderOneByte(d, entries[1..], winStart, now);
      } else {
        forall d | d in entries[1..] ensures winStart <= d.start && d.End() <= now {
          assert d in entries;
          var k :| 0 <= k < |entries[1..]| && entries[1..][k] == d;
          assert entries[k + 1] == d;
        }
        InsideIsExact(d, entries[1..], winStart, now);
      }
    }
  }

  /** So every figure, sent or received, a running tracker reports is its exact value, short by under a byte. */
  lemma LoggedBytesTruncation(d: Direction, boot: Log, samples: seq<Sample>, winStart: int, now: int)
    requires boot.entries == [] && ClockRuns(boot, samples) && now >= Before(boot, samples).now
    ensures var entries := PrunedLog(boot, samples).entries;
            && Disjoint(entries)
            && Within(d, entries, winStart, now) as real <= Exact(d, entries, winStart, now)
                 < Within(d, entries, winStart, now) as real + 1.0
  {
    EntriesAreDisjoint(boot, samples);
    LastInstant(boot, samples);
    TruncationUnderOneByte(d, PrunedLog(boot, samples).entries, winStart, now);
  }

  // ---- what the figures mean ----

  /** How many of the `span` instants from `start` on lie in the window from `a` until before `b`. */
  function Inside(start: int, span: nat, a: int, b: int): nat {
    if span == 0 then 0 else Inside(start, span - 1, a, b) + (if a <= start + span - 1 < b then 1 else 0)
  }

  lemma {:induction false} InsideIs(start: int, span: nat, a: int, b: int)
    ensures Inside(start, span, a, b) == Max(0, Min(start + span, b) - Max(start, a))
  {
    if span > 0 {
      InsideIs(start, span - 1, a, b);
    }
  }

  /** The overlap of an entry counts its instants inside the window. */
  lemma OverlapCounts(e: Entry, winStart: int, now: int)
    ensures Overlap(e, winStart, now) == Inside(e.start, e.span, winStart, now)
  {
    InsideIs(e.start, e.span, winStart, now);
  }

  function Sent(): Entry -> nat {
    (e: Entry) => e.up
  }

  function Received(): Entry -> nat {
    (e: Entry) => e.down
  }

  /** The bytes of every entry, spread evenly over its span, that fall inside the window, in whole bytes an entry. */
  function Counted(entries: seq<Entry>, bytes: Entry -> nat, a: int, b: int): nat {
    if entries == [] then 0
    else
      var e := entries[|entries| - 1];
      Counted(entries[..|entries| - 1], bytes, a, b)
      + if e.span == 0 then 0 else bytes(e) * Inside(e.start, e.span, a, b) / e.span
  }

  lemma {:induction false} WithinCounts(entries: seq<Entry>, a: int, b: int)
    ensures Within(Up, entries, a, b) == Counted(entries, Sent(), a, b)
    ensures Within(Down, entries, a, b) == Counted(entries, Received(), a, b)
  {
    if entries != [] {
      var e := entries[|entries| - 1];
      WithinCounts(entries[..|entries| - 1], a, b);
      OverlapCounts(e, a, b);
    }
  }

  /** The window a rate is over: no longer than the time since the start. */
  function Spanned(log: Log, now: int, window: nat): nat {
    if now - log.started < window then Max(0, now - log.started) else window
  }

  /** A figure of `bytes` over `ns` nanoseconds, in bytes a second. */
  ghost predicate IsRate(figure: real, bytes: nat, ns: nat) {
    figure * (ns as real / 1_000_000_000.0) == bytes as real
  }

  /**
   * A rate is the bytes counted inside the window over the seconds of that window, sent for up and received for
   * down; an empty window has no rate.
   */
  lemma RateIsBytesPerSecond(log: Log, now: int, window: nat)
    ensures var r, ns := RateOf(log, now, window), Spanned(log, now, window);
            && (ns == 0 ==> r.up == 0.0 && r.down == 0.0)
            && (ns > 0 ==>
                  && IsRate(r.up, Counted(log.entries, Sent(), now - ns, now), ns)
                  && IsRate(r.down, Counted(log.entries, Received(), now - ns, now), ns))
  {
    var ns := EffectiveWindow(log, now, window);
    assert ns == Spanned(log, now, window);
    if ns > 0 {
      WithinCounts(log.entries, now - ns, now);
      PerSecondIsRate(Within(Up, log.entries, now - ns, now), ns);
      PerSecondIsRate(Within(Down, log.entries, now - ns, now), ns);
    }
  }

  lemma PerSecondIsRate(bytes: nat, ns: nat)
    requires ns > 0
    ensures IsRate(PerSecond(bytes, ns), bytes, ns)
  {
    SecondsArePositive(ns);
    TimesItsDivisor(bytes as real, ns as real / SECOND as real);
  }

  /** A tick records what both counters grew by since the last, if anything did or nothing is recorded yet. */
  lemma PushedExactly(log: Log, now: int, up: nat, down: nat)
    ensures var after := Pushed(log, now, up, down);
            var e := Entry(log.lastTick, Max(0, now - log.lastTick), Max(0, up - log.lastUp), Max(0, down - log.lastDown));
            && after.lastUp == up && after.lastDown == down && after.lastTick == now && after.started == log.started
            && after.entries ==
                 if now > log.lastTick && (up > log.lastUp || down > log.lastDown || log.entries == []) then log.entries + [e] else log.entries
  {
  }

  /** The first `m` entries ended more than a day ago, and the next, if there is one, did not. */
  predicate ExpiredUpTo(entries: seq<Entry>, now: int, m: int) {
    && 0 <= m <= |entries|
    && (forall k :: 0 <= k < m ==> now - entries[k].End() > 86_400 * 1_000_000_000)
    && (m < |entries| ==> now - entries[m].End() <= 86_400 * 1_000_000_000)
  }

  /** Then, if time went on, the oldest entries go: those that ended more than a day ago, and those beyond the newest fifteen hundred. */
  lemma TickExactly(log: Log, now: int, up: nat, down: nat)
    ensures var all, kept := Pushed(log, now, up, down).entries, Ticked(log, now, up, down).entries;
            var n := |all| - |kept|;
            && n >= 0 && kept == all[n..]
            && (now <= log.lastTick ==> n == 0)
            && (now > log.lastTick ==> exists m :: ExpiredUpTo(all, now, m) && n == Max(m, |all| - 1500))
            && Ticked(log, now, up, down).(entries := []) == Pushed(log, now, up, down).(entries := [])
  {
    var all := Pushed(log, now, up, down).entries;
    LiveFrom(all, now, 0);
    assert ExpiredUpTo(all, now, FirstLive(all, now, 0));
  }

  lemma {:induction false} LiveFrom(entries: seq<Entry>, now: int, k: nat)
    requires k <= |entries|
    ensures var r := FirstLive(entries, now, k);
            && (forall i :: k <= i < r ==> now - entries[i].End() > DAY)
            && (r < |entries| ==> now - entries[r].End() <= DAY)
    decreases |entries| - k
  {
    if FirstLive(entries, now, k) > k {
      LiveFrom(entries, now, k + 1);
    }
  }
}
