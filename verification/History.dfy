/** The holdings ledger on disk, one line an event, rotated at a size cap; and the in-place log cap. */
module History {
  import opened Words

  const NEWLINE: byte := 10

  // ---- lines ----

  /** `split` on newlines, scanned left to right: the finished lines and the unfinished one. */
  datatype Scan = Scan(finished: seq<seq<byte>>, current: seq<byte>)

  function ScanLines(data: seq<byte>): Scan {
    if data == [] then Scan([], [])
    else
      var before := ScanLines(data[..|data| - 1]);
      var b := data[|data| - 1];
      if b == NEWLINE then Scan(before.finished + [before.current], [])
      else Scan(before.finished, before.current + [b])
  }

  function SplitLines(data: seq<byte>): seq<seq<byte>> {
    ScanLines(data).finished + [ScanLines(data).current]
  }

  /** `serde_json`, of which only the round trip and the escaping of newlines are used. */
  datatype Codec<!E> = Codec(encode: E -> seq<byte>, decode: seq<byte> -> Option<E>)

  ghost predicate Faithful<E(!new)>(codec: Codec<E>) {
    forall e: E :: codec.encode(e) != [] && NEWLINE !in codec.encode(e) && codec.decode(codec.encode(e)) == Some(e)
  }

  datatype Parsed<E> = Parsed(events: seq<E>, skipped: nat)

  function ParseEach<E>(codec: Codec<E>, lines: seq<seq<byte>>): Parsed<E> {
    if lines == [] then Parsed([], 0)
    else
      var before := ParseEach(codec, lines[..|lines| - 1]);
      var line := lines[|lines| - 1];
      if line == [] then before
      else match codec.decode(line)
        case Some(e) => before.(events := before.events + [e])
        case None => before.(skipped := before.skipped + 1)
  }

  function Events<E>(codec: Codec<E>, data: seq<byte>): seq<E> {
    ParseEach(codec, SplitLines(data)).events
  }

  /** `parse_lines`. */
  method ParseLines<E>(codec: Codec<E>, data: seq<byte>) returns (events: seq<E>, skipped: nat)
    ensures Parsed(events, skipped) == ParseEach(codec, SplitLines(data))
  {
    events, skipped := [], 0;
    var lines := SplitLines(data);
    var k := 0;
    while k < |lines|
      invariant 0 <= k <= |lines|
      invariant Parsed(events, skipped) == ParseEach(codec, lines[..k])
    {
      assert lines[..k + 1][..k] == lines[..k];
      if lines[k] != [] {
        match codec.decode(lines[k])
        case Some(e) => events := events + [e];
        case None => skipped := skipped + 1;
      }
      k := k + 1;
    }
    assert lines[..|lines|] == lines;
  }

  predicate LineAligned(data: seq<byte>) {
    data == [] || data[|data| - 1] == NEWLINE
  }

  lemma SnocLast(a: seq<byte>, t: seq<byte>)
    requires t != []
    ensures a + t[..|t| - 1] + [t[|t| - 1]] == a + t
    ensures t[|t| - 1] in t && forall b :: b in t[..|t| - 1] ==> b in t
  {
  }

  lemma ScanSnoc(data: seq<byte>, b: byte)
    ensures ScanLines(data + [b]) ==
      var before := ScanLines(data);
      if b == NEWLINE then Scan(before.finished + [before.current], []) else before.(current := before.current + [b])
  {
    assert (data + [b])[..|data|] == data;
  }

  lemma {:induction false} ScanPlainBytes(data: seq<byte>, t: seq<byte>)
    requires NEWLINE !in t
    ensures ScanLines(data + t) == ScanLines(data).(current := ScanLines(data).current + t)
  {
    if t == [] {
      assert data + t == data;
    } else {
      var u := t[..|t| - 1];
      ScanPlainBytes(data, u);
      ScanSnoc(data + u, t[|t| - 1]);
      SnocLast(data, t);
      SnocLast(ScanLines(data).current, t);
    }
  }

  function Line<E>(codec: Codec<E>, e: E): seq<byte> {
    codec.encode(e) + [NEWLINE]
  }

  lemma ParseEachAppend<E>(codec: Codec<E>, lines: seq<seq<byte>>, line: seq<byte>)
    ensures ParseEach(codec, lines + [line]) ==
      var before := ParseEach(codec, lines);
      if line == [] then before
      else match codec.decode(line)
        case Some(e) => before.(events := before.events + [e])
        case None => before.(skipped := before.skipped + 1)
  {
    assert (lines + [line])[..|lines|] == lines;
  }

  /** What one appended event line does to the lines already there, a torn last line included. */
  lemma AppendedLine<E(!new)>(codec: Codec<E>, data: seq<byte>, e: E)
    requires Faithful(codec)
    ensures LineAligned(data + Line(codec, e))
    ensures var torn := ScanLines(data).current + codec.encode(e);
            var finished := ParseEach(codec, ScanLines(data).finished).events;
            Events(codec, data + Line(codec, e)) == finished + match codec.decode(torn) case Some(x) => [x] case None => []
    ensures LineAligned(data) ==> Events(codec, data + Line(codec, e)) == Events(codec, data) + [e]
  {
    var t := codec.encode(e);
    ScanPlainBytes(data, t);
    assert (data + Line(codec, e))[..|data + t|] == data + t;
    var scan := ScanLines(data);
    var after := ScanLines(data + Line(codec, e));
    assert after == Scan(scan.finished + [scan.current + t], []);
    ParseEachAppend(codec, scan.finished, scan.current + t);
    ParseEachAppend(codec, scan.finished + [scan.current + t], []);
    ParseEachAppend(codec, scan.finished, scan.current);
    if LineAligned(data) {
      assert scan.current + t == t;
    }
  }

  /** What a write cut short leaves: the first bytes of some event's line, all but its newline at most. */
  ghost predicate TornWrite<E(!new)>(codec: Codec<E>, torn: seq<byte>) {
    exists f: E, k :: 0 < k <= |codec.encode(f)| && torn == codec.encode(f)[..k]
  }

  /** No start of an event, its whole text included, followed by an event is one: an object left open or closed once too often. */
  ghost predicate RejectsTornWrites<E(!new)>(codec: Codec<E>) {
    forall e: E, f: E, k :: 0 < k <= |codec.encode(f)| ==> codec.decode(codec.encode(f)[..k] + codec.encode(e)) == None
  }

  /** The events of the finished lines. */
  function WholeLines<E>(codec: Codec<E>, data: seq<byte>): seq<E> {
    ParseEach(codec, ScanLines(data).finished).events
  }

  /** What the reader makes of an event appended behind an unfinished line. */
  function Glued<E>(codec: Codec<E>, data: seq<byte>, e: E): seq<E> {
    match codec.decode(ScanLines(data).current + codec.encode(e))
    case Some(x) => [x]
    case None => []
  }

  /**
   * The first event after a write cut short is readable exactly when nothing was left of that write: a
   * torn line is not only skipped itself, it swallows the complete event appended behind it.
   */
  lemma TornTailSwallowsNextEvent<E(!new)>(codec: Codec<E>, data: seq<byte>, e: E)
    requires Faithful(codec) && RejectsTornWrites(codec)
    requires LineAligned(data) || TornWrite(codec, ScanLines(data).current)
    ensures Events(codec, data + Line(codec, e)) == WholeLines(codec, data) + (if LineAligned(data) then [e] else [])
  {
    AppendedLine(codec, data, e);
    TornExactlyWhenUnaligned(data);
    if LineAligned(data) {
      assert ScanLines(data).current + codec.encode(e) == codec.encode(e);
    } else {
      assert Glued(codec, data, e) == [];
    }
  }

  lemma TornExactlyWhenUnaligned(data: seq<byte>)
    ensures ScanLines(data).current == [] <==> LineAligned(data)
  {
  }

  // ---- the two generations ----

  /** The live file and the one before it; an absent file reads as an empty one. */
  datatype Files = Files(previous: seq<byte>, live: seq<byte>)

  /** What a reader of both makes of them, oldest first. */
  function ReadBack<E>(codec: Codec<E>, f: Files): seq<E> {
    Events(codec, f.previous) + Events(codec, f.live)
  }

  /** Would one more event cross the cap? */
  predicate Crosses<E>(codec: Codec<E>, cap: nat, f: Files, e: E) {
    |f.live| + |Line(codec, e)| > cap
  }

  function AfterRecord<E>(codec: Codec<E>, cap: nat, f: Files, e: E): Files {
    if Crosses(codec, cap, f, e) then Files(f.live, Line(codec, e)) else Files(f.previous, f.live + Line(codec, e))
  }

  function AfterAll<E>(codec: Codec<E>, cap: nat, f: Files, events: seq<E>): Files {
    if events == [] then f
    else AfterRecord(codec, cap, AfterAll(codec, cap, f, events[..|events| - 1]), events[|events| - 1])
  }

  /** The events gone with the generations that rotations replaced. */
  function Forgotten<E>(codec: Codec<E>, cap: nat, f: Files, events: seq<E>): nat {
    if events == [] then 0
    else
      var before := AfterAll(codec, cap, f, events[..|events| - 1]);
      Forgotten(codec, cap, f, events[..|events| - 1])
      + if Crosses(codec, cap, before, events[|events| - 1]) then |Events(codec, before.previous)| else 0
  }

  /** Does the first event go behind a torn line? */
  predicate BehindTear<E>(codec: Codec<E>, cap: nat, f: Files, events: seq<E>) {
    events != [] && !LineAligned(f.live) && !Crosses(codec, cap, f, events[0])
  }

  /**
   * The history a reader can hope for: what was readable at the start and everything recorded since. A torn
   * line and a first event behind it read together as whatever the decoder makes of them.
   */
  function Survivors<E>(codec: Codec<E>, cap: nat, f: Files, events: seq<E>): seq<E> {
    if BehindTear(codec, cap, f, events) then
      Events(codec, f.previous) + WholeLines(codec, f.live) + Glued(codec, f.live, events[0]) + events[1..]
    else ReadBack(codec, f) + events
  }

  lemma NoLinesNoEvents<E>(codec: Codec<E>)
    ensures Events(codec, []) == []
  {
    assert ScanLines([]) == Scan([], []);
    ParseEachAppend(codec, [], []);
  }

  /** A line behind a finished one is read as it was written, whether it opens a file or not. */
  lemma RecordReads<E(!new)>(codec: Codec<E>, cap: nat, f: Files, e: E)
    requires Faithful(codec)
    ensures var after := AfterRecord(codec, cap, f, e);
            && LineAligned(after.live)
            && (Crosses(codec, cap, f, e) ==> ReadBack(codec, after) == Events(codec, f.live) + [e])
            && (!Crosses(codec, cap, f, e) && LineAligned(f.live) ==> ReadBack(codec, after) == ReadBack(codec, f) + [e])
            && (!Crosses(codec, cap, f, e) && !LineAligned(f.live) ==>
                  ReadBack(codec, after) == Events(codec, f.previous) + WholeLines(codec, f.live) + Glued(codec, f.live, e))
  {
    if Crosses(codec, cap, f, e) {
      AppendedLine(codec, [], e);
      NoLinesNoEvents(codec);
      assert [] + Line(codec, e) == Line(codec, e);
    } else {
      AppendedLine(codec, f.live, e);
    }
  }

  lemma SurvivorsSnoc<E>(codec: Codec<E>, cap: nat, f: Files, events: seq<E>, e: E)
    ensures events != [] || !BehindTear(codec, cap, f, [e]) ==>
              Survivors(codec, cap, f, events + [e]) == Survivors(codec, cap, f, events) + [e]
    ensures events == [] && BehindTear(codec, cap, f, [e]) ==>
              Survivors(codec, cap, f, events + [e]) == Events(codec, f.previous) + WholeLines(codec, f.live) + Glued(codec, f.live, e)
  {
    if events == [] {
      assert events + [e] == [e];
    } else {
      assert (events + [e])[1..] == events[1..] + [e];
    }
  }

  lemma SuffixSnoc<E>(all: seq<E>, n: nat, e: E)
    requires n <= |all|
    ensures (all + [e])[n..] == all[n..] + [e]
  {
  }

  lemma DropFront<E>(all: seq<E>, n: nat, a: seq<E>, b: seq<E>)
    requires n <= |all| && a + b == all[n..]
    ensures n + |a| <= |all| && b == all[n + |a|..]
  {
    assert b == (a + b)[|a|..];
  }

  /**
   * Whatever the files held and whatever was recorded, the two generations read back as an exact suffix of
   * the history: only whole replaced generations are forgotten.
   */
  lemma {:induction false} ReadsSuffix<E(!new)>(codec: Codec<E>, cap: nat, f: Files, events: seq<E>)
    requires Faithful(codec)
    ensures events != [] ==> LineAligned(AfterAll(codec, cap, f, events).live)
    ensures var history, n := Survivors(codec, cap, f, events), Forgotten(codec, cap, f, events);
            n <= |history| && ReadBack(codec, AfterAll(codec, cap, f, events)) == history[n..]
  {
    if events == [] {
      assert ReadBack(codec, f) + [] == ReadBack(codec, f);
    } else {
      var front, e := events[..|events| - 1], events[|events| - 1];
      assert front + [e] == events;
      ReadsSuffix(codec, cap, f, front);
      if front == [] && BehindTear(codec, cap, f, [e]) {
        RecordReads(codec, cap, f, e);
        SurvivorsSnoc(codec, cap, f, [], e);
      } else {
        SurvivorsSnoc(codec, cap, f, front, e);
        RecordKeepsSuffix(codec, cap, AfterAll(codec, cap, f, front), e, Survivors(codec, cap, f, front), Forgotten(codec, cap, f, front));
      }
    }
  }

  /** One more event, behind a finished line or opening a generation. */
  lemma RecordKeepsSuffix<E(!new)>(codec: Codec<E>, cap: nat, before: Files, e: E, history: seq<E>, n: nat)
    requires Faithful(codec) && (LineAligned(before.live) || Crosses(codec, cap, before, e))
    requires n <= |history| && ReadBack(codec, before) == history[n..]
    ensures var after := AfterRecord(codec, cap, before, e);
            var m := n + if Crosses(codec, cap, before, e) then |Events(codec, before.previous)| else 0;
            LineAligned(after.live) && m <= |history| + 1 && ReadBack(codec, after) == (history + [e])[m..]
  {
    RecordReads(codec, cap, before, e);
    if Crosses(codec, cap, before, e) {
      DropFront(history, n, Events(codec, before.previous), Events(codec, before.live));
      SuffixSnoc(history, n + |Events(codec, before.previous)|, e);
    } else {
      SuffixSnoc(history, n, e);
    }
  }

  /**
   * Over files that a write cut short left torn, one event is lost for good, the first, unless it opens a new
   * generation; the torn line goes with it, and nothing else ever after.
   */
  lemma TornOpeningLosesOneEvent<E(!new)>(codec: Codec<E>, cap: nat, f: Files, events: seq<E>)
    requires Faithful(codec) && RejectsTornWrites(codec) && TornWrite(codec, ScanLines(f.live).current) && events != []
    ensures Survivors(codec, cap, f, events) ==
              if Crosses(codec, cap, f, events[0]) then ReadBack(codec, f) + events
              else Events(codec, f.previous) + WholeLines(codec, f.live) + events[1..]
  {
    TornExactlyWhenUnaligned(f.live);
    assert Glued(codec, f.live, events[0]) == [];
    assert Events(codec, f.previous) + WholeLines(codec, f.live) + [] == Events(codec, f.previous) + WholeLines(codec, f.live);
  }

  // ---- the writer ----

  /** `start` is what the files held when the writer took them over, `recorded` everything it recorded since. */
  class Writer<E(!new)> {
    const codec: Codec<E>
    const cap: nat
    var live: seq<byte>
    var previous: seq<byte>
    ghost const start: Files
    ghost var recorded: seq<E>

    ghost predicate Valid()
      reads this
    {
      Faithful(codec) && Files(previous, live) == AfterAll(codec, cap, start, recorded)
    }

    constructor (codec: Codec<E>, cap: nat, previous: seq<byte>, live: seq<byte>)
      requires Faithful(codec)
      ensures Valid() && this.codec == codec && this.cap == cap
      ensures start == Files(previous, live) && recorded == []
    {
      this.codec, this.cap, this.previous, this.live := codec, cap, previous, live;
      start, recorded := Files(previous, live), [];
    }

    /** The live file becomes the previous generation, replacing the one before it. */
    method Rotate()
      modifies this`previous, this`live
      ensures live == [] && previous == old(live)
    {
      previous, live := live, [];
    }

    method WriteLine(line: seq<byte>)
      modifies this`live
      ensures live == old(live) + line
    {
      live := live + line;
    }

    /** Rotates on the write that would cross the cap, then appends one line. */
    method Record(ev: E)
      requires Valid()
      modifies this
      ensures Valid() && recorded == old(recorded) + [ev]
      ensures |live| <= Max(cap, |Line(codec, ev)|)
      ensures live == (if |old(live)| + |Line(codec, ev)| <= cap then old(live) else []) + Line(codec, ev)
      ensures previous == if |old(live)| + |Line(codec, ev)| <= cap then old(previous) else old(live)
    {
      var line := codec.encode(ev) + [NEWLINE];
      if |live| + |line| > cap {
        Rotate();
      }
      WriteLine(line);
      assert (recorded + [ev])[..|recorded|] == recorded;
      recorded := recorded + [ev];
    }

    /** `read_events`: the previous generation, then the live file. */
    method ReadEvents() returns (events: seq<E>, skipped: nat)
      requires Valid()
      ensures var history, n := Survivors(codec, cap, start, recorded), Forgotten(codec, cap, start, recorded);
              n <= |history| && events == history[n..]
      ensures LineAligned(start.live) ==> Survivors(codec, cap, start, recorded) == ReadBack(codec, start) + recorded
      ensures skipped == ParseEach(codec, SplitLines(previous)).skipped + ParseEach(codec, SplitLines(live)).skipped
    {
      var older, skippedOlder := ParseLines(codec, previous);
      var newer, skippedNewer := ParseLines(codec, live);
      ReadsSuffix(codec, cap, start, recorded);
      return older + newer, skippedOlder + skippedNewer;
    }
  }

  // ---- the in-place cap ----

  function Keep(maxBytes: nat): nat {
    Max(maxBytes / 2, 1)
  }

  /** The newest `n` bytes. */
  function Newest(data: seq<byte>, n: nat): seq<byte> {
    data[SatSub(|data|, n)..]
  }

  function FirstNewline(data: seq<byte>, k: nat): (i: nat)
    requires k <= |data|
    ensures k <= i <= |data|
    ensures forall n :: k <= n < i ==> data[n] != NEWLINE
    ensures i < |data| ==> data[i] == NEWLINE
    decreases |data| - k
  {
    if k == |data| || data[k] == NEWLINE then k else FirstNewline(data, k + 1)
  }

  /** What the cap keeps of an over-long file: its newest half, from the first line start on. */
  function KeptTail(data: seq<byte>, maxBytes: nat): seq<byte> {
    var buf := Newest(data, Keep(maxBytes));
    var i := FirstNewline(buf, 0);
    if i < |buf| then buf[i + 1..] else buf
  }

  /** The file after `k` bytes of the tail were written over its start. */
  function Overwritten(data: seq<byte>, tail: seq<byte>, k: nat): (r: seq<byte>)
    requires k <= |tail| <= |data|
    ensures |r| == |data|
  {
    tail[..k] + data[k..]
  }

  lemma OverwriteStep(data: seq<byte>, tail: seq<byte>, k: nat)
    requires k < |tail| <= |data|
    ensures Overwritten(data, tail, k)[k := tail[k]] == Overwritten(data, tail, k + 1)
  {
  }

  lemma OverwriteDone(data: seq<byte>, tail: seq<byte>)
    requires |tail| <= |data|
    ensures Overwritten(data, tail, 0) == data
    ensures |Overwritten(data, tail, |tail|)| == |data| && Overwritten(data, tail, |tail|)[..|tail|] == tail
  {
  }

  class TextFile {
    var bytes: seq<byte>

    constructor (bytes: seq<byte>)
      ensures this.bytes == bytes
    {
      this.bytes := bytes;
    }

    /**
     * `cap_text_file`, killed after `budget` single-byte writes (the truncation needs one more).
     * The tail goes over the start of the file first; only then is the file cut.
     */
    method Cap(maxBytes: nat, budget: nat) returns (done: bool)
      modifies this
      ensures |old(bytes)| <= maxBytes ==> done && bytes == old(bytes)
      ensures |old(bytes)| > maxBytes ==>
                var tail := KeptTail(old(bytes), maxBytes);
                && |tail| <= |old(bytes)|
                && done == (budget > |tail|)
                && bytes == if done then tail else Overwritten(old(bytes), tail, Min(budget, |tail|))
    {
      var len := |bytes|;
      if len <= maxBytes {
        return true;
      }
      var keep := Max(maxBytes / 2, 1);
      var buf := bytes[SatSub(len, keep)..];
      var i := FirstNewline(buf, 0);
      var cut := if i < |buf| then i + 1 else 0;
      var tail := buf[cut..];
      assert tail == KeptTail(old(bytes), maxBytes);
      done := Overwrite(tail, budget);
      if done {
        OverwriteDone(old(bytes), tail);
        bytes := bytes[..|tail|];
      }
    }

    /** The writes at the start of the file, one byte each; `done` if the budget leaves one for the cut. */
    method Overwrite(tail: seq<byte>, budget: nat) returns (done: bool)
      requires |tail| <= |bytes|
      modifies this
      ensures done == (budget > |tail|)
      ensures bytes == Overwritten(old(bytes), tail, Min(budget, |tail|))
    {
      OverwriteDone(bytes, tail);
      var k := 0;
      while k < |tail|
        invariant 0 <= k <= |tail| && k <= budget
        invariant bytes == Overwritten(old(bytes), tail, k)
      {
        if k == budget {
          return false;
        }
        OverwriteStep(old(bytes), tail, k);
        bytes := bytes[k := tail[k]];
        k := k + 1;
      }
      return k < budget;
    }
  }

  /** The kept tail is a suffix of the newest half that starts a line, or all of a half without one. */
  lemma KeptTailShape(data: seq<byte>, maxBytes: nat)
    requires |data| > maxBytes
    ensures var tail := KeptTail(data, maxBytes);
            var n := |data| - |tail|;
            && |tail| <= Keep(maxBytes) <= |data|
            && tail == data[n..]
            && ((0 < n && data[n - 1] == NEWLINE) || (tail == Newest(data, Keep(maxBytes)) && NEWLINE !in tail))
            && (forall k :: |data| - Keep(maxBytes) <= k < n - 1 ==> data[k] != 10)
            && (2 * |tail| <= maxBytes || |tail| <= 1)
  {
    var buf := Newest(data, Keep(maxBytes));
    var i := FirstNewline(buf, 0);
    var tail := KeptTail(data, maxBytes);
    if i < |buf| {
      assert buf[i] == data[|data| - |buf| + i];
    }
  }

  /** The cap empties the file exactly when the only newline of its newest half is the last byte. */
  lemma CapEmptiesFile(data: seq<byte>, maxBytes: nat)
    requires |data| > maxBytes
    ensures KeptTail(data, maxBytes) == [] <==>
              var buf := Newest(data, Keep(maxBytes));
              buf[|buf| - 1] == NEWLINE && NEWLINE !in buf[..|buf| - 1]
  {
    var buf := Newest(data, Keep(maxBytes));
    var i := FirstNewline(buf, 0);
    if i < |buf| - 1 {
      assert buf[..|buf| - 1][i] == buf[i];
    }
    assert forall n :: 0 <= n < |buf| - 1 ==> buf[..|buf| - 1][n] == buf[n];
  }

  /**
   * At every byte at which the cap can be killed before the truncation, the file still ends with
   * the newest half it had, and capping it again finishes the same job.
   */
  lemma CrashKeepsNewestHalf(data: seq<byte>, maxBytes: nat, k: nat)
    requires |data| > maxBytes && k <= |KeptTail(data, maxBytes)|
    ensures |KeptTail(data, maxBytes)| <= |data|
    ensures var crashed := Overwritten(data, KeptTail(data, maxBytes), k);
            && |crashed| == |data|
            && Newest(crashed, Keep(maxBytes)) == Newest(data, Keep(maxBytes))
            && KeptTail(crashed, maxBytes) == KeptTail(data, maxBytes)
  {
    KeptTailShape(data, maxBytes);
    NewestUntouched(data, KeptTail(data, maxBytes), Keep(maxBytes), k);
  }

  lemma SuffixPast(a: seq<byte>, b: seq<byte>, n: nat)
    requires |a| <= n <= |a| + |b|
    ensures (a + b)[n..] == b[n - |a|..]
  {
  }

  lemma SuffixOfSuffix(data: seq<byte>, k: nat, n: nat)
    requires k <= n <= |data|
    ensures data[k..][n - k..] == data[n..]
  {
  }

  /** The overwritten front and the newest half overlap only where the tail is the whole file. */
  lemma NewestUntouched(data: seq<byte>, tail: seq<byte>, keep: nat, k: nat)
    requires k <= |tail| <= keep <= |data| && tail == data[|data| - |tail|..]
    requires 2 * keep <= |data| || keep == |data| == 1
    ensures |Overwritten(data, tail, k)| == |data|
    ensures Newest(Overwritten(data, tail, k), keep) == Newest(data, keep)
  {
    var n := |data| - keep;
    if n < k {
      assert tail == data;
      assert tail[..k] + data[k..] == data;
    } else {
      SuffixPast(tail[..k], data[k..], n);
      SuffixOfSuffix(data, k, n);
    }
  }

  /** Killed any number of times, then run to the end, the cap leaves what one run would have left. */
  method CapSurvivesCrashes(f: TextFile, maxBytes: nat, budgets: seq<nat>)
    modifies f
    ensures f.bytes == if |old(f.bytes)| > maxBytes then KeptTail(old(f.bytes), maxBytes) else old(f.bytes)
  {
    if |f.bytes| <= maxBytes {
      return;
    }
    ghost var tail := KeptTail(f.bytes, maxBytes);
    var k := 0;
    while k < |budgets|
      invariant |f.bytes| > maxBytes && KeptTail(f.bytes, maxBytes) == tail
    {
      ghost var before := f.bytes;
      var done := f.Cap(maxBytes, budgets[k]);
      if done {
        return;
      }
      CrashKeepsNewestHalf(before, maxBytes, Min(budgets[k], |tail|));
      k := k + 1;
    }
    KeptTailShape(f.bytes, maxBytes);
    var done := f.Cap(maxBytes, |f.bytes| + 1);
  }
}
