/**
 * The broken-swarm detector: per-torrent receive counters are watched for bytes that keep
 * arriving without any byte passing validation, and a trip is escalated in the registry.
 */
module Quarantines {
  import opened Words

  // ---- escalation ----

  /** Seconds. `MAX_UTC` is the latest representable instant. */
  const MAX_UTC: int := 8_210_266_876_799
  const FAR_SECONDS: int := 520 * 7 * 86_400
  const MAX_KNOB_SECONDS: int := 366 * 86_400

  function CheckedAdd(now: int, d: nat): Option<int> {
    if now + d <= MAX_UTC then Some(now + d) else None
  }

  function FarFuture(now: int): int {
    match CheckedAdd(now, FAR_SECONDS)
    case Some(t) => t
    case None => MAX_UTC
  }

  datatype Trip = Trip(wasted: nat, windows: nat)

  datatype Quarantine = Quarantine(quarantinedAt: int, cooldownUntil: int, attempts: nat, wasted: nat)

  function NextQuarantineEntry(prev: Option<Quarantine>, trip: Trip, now: int, cooldown: nat, maxRetries: nat): Quarantine {
    var attempts := (if prev.Some? then prev.value.attempts else 0) + 1;
    var indefinite := FarFuture(now);
    var until :=
      if maxRetries > 0 && attempts > maxRetries then indefinite
      else match CheckedAdd(now, cooldown) case Some(t) => t case None => indefinite;
    Quarantine(now, until, attempts, trip.wasted)
  }

  /**
   * A trip counts one more attempt and locks the hash out for the far-future term exactly when the
   * retries are limited and spent, or when the calendar itself ends within the cooldown.
   */
  lemma EscalatesExactlyPastRetries(prev: Option<Quarantine>, trip: Trip, now: int, cooldown: nat, maxRetries: nat)
    requires now <= MAX_UTC && cooldown <= MAX_KNOB_SECONDS
    ensures var q := NextQuarantineEntry(prev, trip, now, cooldown, maxRetries);
            && q.attempts == (if prev.Some? then prev.value.attempts else 0) + 1
            && now <= q.cooldownUntil <= MAX_UTC
            && (!(maxRetries > 0 && q.attempts > maxRetries) && now + cooldown <= MAX_UTC ==> q.cooldownUntil == now + cooldown)
            && (maxRetries > 0 && q.attempts > maxRetries && now + 520 * 7 * 86_400 <= MAX_UTC ==> q.cooldownUntil == now + 520 * 7 * 86_400)
            && q.quarantinedAt == now && q.wasted == trip.wasted
            && (q.cooldownUntil == FarFuture(now)
                <==> (maxRetries > 0 && q.attempts > maxRetries) || now + cooldown >= MAX_UTC)
  {
  }

  // ---- the watch automaton ----

  datatype WatchState = WatchState(lastChecked: nat, lastFetched: nat, wasted: nat, windows: nat)

  /** One torrent's step: its next watch state and whether the rule trips. */
  function Advance(prev: Option<WatchState>, checked: nat, fetched: nat): WatchState {
    if prev.None? then WatchState(checked, fetched, 0, 0)
    else
      var ws := prev.value;
      if checked < ws.lastChecked || fetched < ws.lastFetched || checked > ws.lastChecked then
        WatchState(checked, fetched, 0, 0)
      else
        WatchState(checked, fetched, SatAdd64(ws.wasted, fetched - ws.lastFetched), SatAdd32(ws.windows, 1))
  }

  predicate Quiet(prev: Option<WatchState>, checked: nat, fetched: nat) {
    prev.Some? && checked == prev.value.lastChecked && fetched >= prev.value.lastFetched
  }

  function Verdict(prev: Option<WatchState>, checked: nat, fetched: nat, threshold: nat, minWindows: nat): Option<Trip> {
    var ws := Advance(prev, checked, fetched);
    if Quiet(prev, checked, fetched) && ws.wasted >= threshold && ws.windows >= Max(minWindows, 1)
    then Some(Trip(ws.wasted, ws.windows)) else None
  }

  function Watched(watch: map<Hash, WatchState>, h: Hash): Option<WatchState> {
    if h in watch then Some(watch[h]) else None
  }

  class Detector {
    var watch: map<Hash, WatchState>

    constructor ()
      ensures watch == map[]
    {
      watch := map[];
    }

    method Observe(h: Hash, checked: nat, fetched: nat, threshold: nat, minWindows: nat) returns (trip: Option<Trip>)
      modifies this
      ensures watch == old(watch)[h := Advance(Watched(old(watch), h), checked, fetched)]
      ensures trip == Verdict(Watched(old(watch), h), checked, fetched, threshold, minWindows)
    {
      if h !in watch {
        watch := watch[h := WatchState(checked, fetched, 0, 0)];
        return None;
      }
      var ws := watch[h];
      if checked < ws.lastChecked || fetched < ws.lastFetched {
        watch := watch[h := WatchState(checked, fetched, 0, 0)];
        return None;
      }
      var checkedDelta := checked - ws.lastChecked;
      var fetchedDelta := fetched - ws.lastFetched;
      ws := ws.(lastChecked := checked, lastFetched := fetched);
      if checkedDelta > 0 {
        watch := watch[h := ws.(wasted := 0, windows := 0)];
        return None;
      }
      ws := ws.(wasted := SatAdd64(ws.wasted, fetchedDelta), windows := SatAdd32(ws.windows, 1));
      watch := watch[h := ws];
      if ws.wasted >= threshold && ws.windows >= Max(minWindows, 1) {
        return Some(Trip(ws.wasted, ws.windows));
      }
      return None;
    }

    method Forget(h: Hash)
      modifies this
      ensures watch == old(watch) - {h}
    {
      watch := watch - {h};
    }

    method RetainOnly(observed: set<Hash>)
      modifies this
      ensures watch == map h | h in old(watch) && h in observed :: old(watch)[h]
    {
      watch := map h | h in watch && h in observed :: watch[h];
    }
  }

  // ---- the trace specification ----

  /** What the engine feeds the detector, in order. */
  datatype Feed =
    | Observed(hash: Hash, checked: nat, fetched: nat)
    | Forgotten(hash: Hash)
    | Retained(keep: set<Hash>)

  /** The watch map after a whole history of calls. */
  function After(feeds: seq<Feed>): map<Hash, WatchState> {
    if feeds == [] then map[]
    else
      var watch := After(feeds[..|feeds| - 1]);
      match feeds[|feeds| - 1]
      case Observed(h, c, f) => watch[h := Advance(Watched(watch, h), c, f)]
      case Forgotten(h) => watch - {h}
      case Retained(keep) => map h | h in watch && h in keep :: watch[h]
  }

  /** One hash's share of a history: its readings, with a gap where its state was dropped. */
  datatype Mark = Gap | Reading(checked: nat, fetched: nat)

  function Project(feeds: seq<Feed>, h: Hash): seq<Mark> {
    if feeds == [] then []
    else
      var before := Project(feeds[..|feeds| - 1], h);
      match feeds[|feeds| - 1]
      case Observed(g, c, f) => if g == h then before + [Reading(c, f)] else before
      case Forgotten(g) => if g == h then before + [Gap] else before
      case Retained(keep) => if h in keep then before else before + [Gap]
  }

  /** The automaton run over one hash's marks alone. */
  function StateAfter(marks: seq<Mark>): Option<WatchState> {
    if marks == [] then None
    else match marks[|marks| - 1]
      case Gap => None
      case Reading(c, f) => Some(Advance(StateAfter(marks[..|marks| - 1]), c, f))
  }

  lemma WatchedNext(watch: map<Hash, WatchState>, g: Hash, s: WatchState, keep: set<Hash>, h: Hash)
    ensures Watched(watch[g := s], h) == if g == h then Some(s) else Watched(watch, h)
    ensures Watched(watch - {g}, h) == if g == h then None else Watched(watch, h)
    ensures Watched(map k | k in watch && k in keep :: watch[k], h) == if h in keep then Watched(watch, h) else None
  {
  }

  lemma StateNext(marks: seq<Mark>, c: nat, f: nat)
    ensures StateAfter(marks + [Reading(c, f)]) == Some(Advance(StateAfter(marks), c, f))
    ensures StateAfter(marks + [Gap]) == None
  {
    assert (marks + [Reading(c, f)])[..|marks|] == marks;
  }

  /** Other torrents' traffic never touches a hash's watch state. */
  lemma {:induction false} InterleavingIsIrrelevant(feeds: seq<Feed>, h: Hash)
    ensures Watched(After(feeds), h) == StateAfter(Project(feeds, h))
  {
    if feeds != [] {
      var before := feeds[..|feeds| - 1];
      InterleavingIsIrrelevant(before, h);
      var watch, marks := After(before), Project(before, h);
      match feeds[|feeds| - 1]
      case Observed(g, c, f) =>
        WatchedNext(watch, g, Advance(Watched(watch, g), c, f), {}, h);
        StateNext(marks, c, f);
      case Forgotten(g) =>
        WatchedNext(watch, g, Advance(None, 0, 0), {}, h);
        StateNext(marks, 0, 0);
      case Retained(keep) =>
        WatchedNext(watch, h, Advance(None, 0, 0), keep, h);
        StateNext(marks, 0, 0);
    }
  }

  /** No verified byte, no regression and no dropped state from reading `r` through reading `n`. */
  ghost predicate QuietStretch(marks: seq<Mark>, r: nat, n: nat) {
    && r <= n < |marks|
    && (forall k :: r <= k <= n ==> marks[k].Reading?)
    && (forall k :: r < k <= n ==> marks[k].checked == marks[k - 1].checked && marks[k].fetched >= marks[k - 1].fetched)
  }

  ghost predicate InRange(marks: seq<Mark>) {
    forall k :: 0 <= k < |marks| && marks[k].Reading? ==> marks[k].fetched <= U64_MAX
  }

  /** Where the quiet stretch ending at the last mark began. */
  function Baseline(marks: seq<Mark>): (r: nat)
    requires marks != [] && marks[|marks| - 1].Reading?
    ensures r < |marks|
    ensures QuietStretch(marks, r, |marks| - 1)
  {
    var n := |marks| - 1;
    if n > 0 && marks[n - 1].Reading? && marks[n].checked == marks[n - 1].checked && marks[n].fetched >= marks[n - 1].fetched
    then Baseline(marks[..n]) else n
  }

  /** Every quiet stretch that ends at the last mark starts no earlier. */
  lemma {:induction false} BaselineIsEarliest(marks: seq<Mark>, r: nat)
    requires marks != [] && QuietStretch(marks, r, |marks| - 1)
    ensures Baseline(marks) <= r
  {
    var n := |marks| - 1;
    if r < n {
      var before := marks[..n];
      assert QuietStretch(before, r, n - 1);
      BaselineIsEarliest(before, r);
    }
  }

  /**
   * The incremental sums telescope: the accumulator is the growth of the fetched counter since the
   * baseline, and it never saturates; the window count is the distance from the baseline.
   */
  lemma {:induction false} AccumulatorsTelescope(marks: seq<Mark>)
    requires InRange(marks) && marks != [] && marks[|marks| - 1].Reading?
    ensures var n := |marks| - 1;
            var r := Baseline(marks);
            && marks[r].fetched <= marks[n].fetched
            && StateAfter(marks) == Some(WatchState(marks[n].checked, marks[n].fetched,
                                                    marks[n].fetched - marks[r].fetched, Min(n - r, U32_MAX)))
  {
    var n := |marks| - 1;
    var before := marks[..n];
    if n > 0 && marks[n - 1].Reading? {
      assert before[n - 1] == marks[n - 1];
      AccumulatorsTelescope(before);
    } else if n > 0 {
      assert before[n - 1] == Gap;
    }
  }

  /**
   * The detector is its trace specification: under any interleaving, a reading trips exactly when
   * it ends a quiet stretch of at least max(1, minWindows) steps over which the fetched counter
   * grew by at least the threshold.
   */
  lemma TripsExactlyOnQuietStretch(feeds: seq<Feed>, h: Hash, checked: nat, fetched: nat, threshold: nat, minWindows: nat)
    requires var marks := Project(feeds, h) + [Reading(checked, fetched)]; InRange(marks)
    requires minWindows <= U32_MAX
    ensures var marks := Project(feeds, h) + [Reading(checked, fetched)];
            var n := |marks| - 1;
            Verdict(Watched(After(feeds), h), checked, fetched, threshold, minWindows).Some?
            <==> exists r: nat :: QuietStretch(marks, r, n)
                   && marks[n].fetched - marks[r].fetched >= threshold
                   && n - r >= Max(minWindows, 1)
  {
    var before := Project(feeds, h);
    var marks := before + [Reading(checked, fetched)];
    var n := |marks| - 1;
    InterleavingIsIrrelevant(feeds, h);
    VerdictByBaseline(before, checked, fetched, threshold, minWindows);
    assert QuietStretch(marks, Baseline(marks), n);
    if s: nat :| QuietStretch(marks, s, n) && marks[n].fetched - marks[s].fetched >= threshold && n - s >= Max(minWindows, 1) {
      BaselineIsEarliest(marks, s);
      FetchedGrows(marks, Baseline(marks), s);
    }
  }

  /** The quiet stretch ending at `n` that starts at `r` reaches no further back. */
  ghost predicate WholeStretch(marks: seq<Mark>, r: nat, n: nat) {
    QuietStretch(marks, r, n) && (r == 0 || !QuietStretch(marks, r - 1, n))
  }

  /** The bytes fetched over the whole quiet stretch that the marks end with, and its passes. */
  ghost predicate ReportsStretch(trip: Trip, marks: seq<Mark>)
    requires marks != []
  {
    exists r: nat ::
      && WholeStretch(marks, r, |marks| - 1)
      && trip.wasted == marks[|marks| - 1].fetched - marks[r].fetched
      && trip.windows == Min(|marks| - 1 - r, U32_MAX)
  }

  /** And a trip reports that stretch. */
  lemma TripReportsTheStretch(feeds: seq<Feed>, h: Hash, checked: nat, fetched: nat, threshold: nat, minWindows: nat)
    requires InRange(Project(feeds, h) + [Reading(checked, fetched)])
    ensures var trip := Verdict(Watched(After(feeds), h), checked, fetched, threshold, minWindows);
            trip.Some? ==> ReportsStretch(trip.value, Project(feeds, h) + [Reading(checked, fetched)])
  {
    InterleavingIsIrrelevant(feeds, h);
    VerdictReportsStretch(Project(feeds, h), checked, fetched, threshold, minWindows);
  }

  lemma VerdictReportsStretch(before: seq<Mark>, checked: nat, fetched: nat, threshold: nat, minWindows: nat)
    requires InRange(before + [Reading(checked, fetched)])
    ensures var trip := Verdict(StateAfter(before), checked, fetched, threshold, minWindows);
            trip.Some? ==> ReportsStretch(trip.value, before + [Reading(checked, fetched)])
  {
    var marks := before + [Reading(checked, fetched)];
    VerdictReports(before, checked, fetched, threshold, minWindows);
    BaselineIsWhole(marks);
  }

  lemma BaselineIsWhole(marks: seq<Mark>)
    requires marks != [] && marks[|marks| - 1].Reading?
    ensures WholeStretch(marks, Baseline(marks), |marks| - 1)
  {
    var r := Baseline(marks);
    if r > 0 && QuietStretch(marks, r - 1, |marks| - 1) {
      BaselineIsEarliest(marks, r - 1);
    }
  }

  lemma VerdictReports(before: seq<Mark>, checked: nat, fetched: nat, threshold: nat, minWindows: nat)
    requires InRange(before + [Reading(checked, fetched)])
    ensures var marks := before + [Reading(checked, fetched)];
            var n, r := |marks| - 1, Baseline(marks);
            var trip := Verdict(StateAfter(before), checked, fetched, threshold, minWindows);
            trip.Some? ==> trip.value.wasted == marks[n].fetched - marks[r].fetched && trip.value.windows == Min(n - r, U32_MAX)
  {
    var marks := before + [Reading(checked, fetched)];
    assert marks[..|before|] == before;
    AccumulatorsTelescope(marks);
  }

  /** The verdict asks the question of the baseline alone. */
  lemma VerdictByBaseline(before: seq<Mark>, checked: nat, fetched: nat, threshold: nat, minWindows: nat)
    requires InRange(before + [Reading(checked, fetched)]) && minWindows <= U32_MAX
    ensures var marks := before + [Reading(checked, fetched)];
            var n, r := |marks| - 1, Baseline(marks);
            Verdict(StateAfter(before), checked, fetched, threshold, minWindows).Some?
            <==> marks[n].fetched - marks[r].fetched >= threshold && n - r >= Max(minWindows, 1)
  {
    var marks := before + [Reading(checked, fetched)];
    assert marks[..|before|] == before;
    AccumulatorsTelescope(marks);
    VerdictFromBaseline(before, checked, fetched);
  }

  /** The step is quiet exactly when the baseline lies before it. */
  lemma VerdictFromBaseline(before: seq<Mark>, checked: nat, fetched: nat)
    ensures Quiet(StateAfter(before), checked, fetched)
            <==> Baseline(before + [Reading(checked, fetched)]) < |before|
  {
    var marks := before + [Reading(checked, fetched)];
    assert marks[..|before|] == before;
    if before != [] && before[|before| - 1].Reading? {
      var last := before[|before| - 1];
      assert StateAfter(before).value.lastChecked == last.checked;
      assert StateAfter(before).value.lastFetched == last.fetched;
    }
  }

  lemma {:induction false} FetchedGrows(marks: seq<Mark>, r: nat, s: nat)
    requires marks != [] && r <= s && QuietStretch(marks, r, |marks| - 1) && s < |marks|
    ensures marks[r].fetched <= marks[s].fetched
  {
    if r < s {
      FetchedGrows(marks, r, s - 1);
    }
  }

  /** Each stretch of `w` steps watched without a gap holds one at which the verified count rises. */
  ghost predicate ProgressEvery(marks: seq<Mark>, w: nat) {
    forall a, b :: 0 <= a && a + w == b < |marks| && Unbroken(marks, a, b) ==> ProgressWithin(marks, a, b)
  }

  /** Watched throughout, without a gap. */
  ghost predicate Unbroken(marks: seq<Mark>, a: nat, b: nat)
    requires b < |marks|
  {
    forall k :: a <= k <= b ==> marks[k].Reading?
  }

  ghost predicate ProgressWithin(marks: seq<Mark>, a: nat, b: nat)
    requires b < |marks|
  {
    exists j :: a < j <= b && marks[j].Reading? && marks[j - 1].Reading? && marks[j].checked > marks[j - 1].checked
  }

  /**
   * A swarm that lands a verified byte at least once in every max(1, minWindows) passes while it is in the
   * session never trips, however often it came and went.
   */
  lemma HealthySwarmNeverTrips(feeds: seq<Feed>, h: Hash, checked: nat, fetched: nat, threshold: nat, minWindows: nat)
    requires var marks := Project(feeds, h) + [Reading(checked, fetched)]; InRange(marks) && ProgressEvery(marks, Max(minWindows, 1))
    requires minWindows <= U32_MAX
    ensures Verdict(Watched(After(feeds), h), checked, fetched, threshold, minWindows) == None
  {
    var marks := Project(feeds, h) + [Reading(checked, fetched)];
    var n := |marks| - 1;
    var w := Max(minWindows, 1);
    TripsExactlyOnQuietStretch(feeds, h, checked, fetched, threshold, minWindows);
    forall r: nat ensures !(QuietStretch(marks, r, n) && n - r >= w) {
      if QuietStretch(marks, r, n) && n - r >= w {
        QuietIsUnbroken(marks, r, n, n - w);
      }
    }
  }

  /** A quiet stretch is watched throughout, and no part of it holds progress. */
  lemma QuietIsUnbroken(marks: seq<Mark>, r: nat, n: nat, a: nat)
    requires QuietStretch(marks, r, n) && r <= a <= n
    ensures Unbroken(marks, a, n) && !ProgressWithin(marks, a, n)
  {
  }
}
