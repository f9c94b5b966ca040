/**
 * That events can be written down at all: a text for every event, one line each, that reads back as that event
 * and stays unreadable when a write is cut short. JSON is such a text; this one shows that there are any.
 */
module LedgerCodec {
  import opened Words
  import opened Holdings
  import opened History

  const DIGIT: byte := 1
  const END: byte := 0
  const MARK: byte := 2

  // ---- numbers and lists of numbers ----

  function Text(n: nat): seq<byte> {
    if n == 0 then [END] else [DIGIT] + Text(n - 1)
  }

  function TextOf(ns: seq<nat>): seq<byte> {
    if ns == [] then [] else Text(ns[0]) + TextOf(ns[1..])
  }

  lemma {:induction false} TextReadsBack(m: nat, n: nat, x: seq<byte>, y: seq<byte>)
    requires Text(m) + x == Text(n) + y
    ensures m == n && x == y
  {
    assert (Text(m) + x)[0] == (Text(n) + y)[0];
    if m > 0 && n > 0 {
      assert Text(m) + x == [DIGIT] + (Text(m - 1) + x);
      assert Text(n) + y == [DIGIT] + (Text(n - 1) + y);
      assert Text(m - 1) + x == (Text(m) + x)[1..] == (Text(n) + y)[1..] == Text(n - 1) + y;
      TextReadsBack(m - 1, n - 1, x, y);
    } else {
      assert x == (Text(m) + x)[1..] == (Text(n) + y)[1..] == y;
    }
  }

  lemma {:induction false} TextsReadBack(ms: seq<nat>, ns: seq<nat>)
    requires TextOf(ms) == TextOf(ns)
    ensures ms == ns
  {
    if ms != [] && ns != [] {
      TextReadsBack(ms[0], ns[0], TextOf(ms[1..]), TextOf(ns[1..]));
      TextsReadBack(ms[1..], ns[1..]);
      assert ms == [ms[0]] + ms[1..] && ns == [ns[0]] + ns[1..];
    }
  }

  lemma {:induction false} TextIsPlain(n: nat)
    ensures forall b :: b in Text(n) ==> b == DIGIT || b == END
  {
    if n > 0 {
      TextIsPlain(n - 1);
    }
  }

  lemma {:induction false} TextsArePlain(ns: seq<nat>)
    ensures forall b :: b in TextOf(ns) ==> b == DIGIT || b == END
  {
    if ns != [] {
      TextIsPlain(ns[0]);
      TextsArePlain(ns[1..]);
    }
  }

  // ---- events as numbers ----

  function Folded(i: int): nat {
    if i >= 0 then 2 * i else -2 * i - 1
  }

  function CauseNumber(c: Cause): nat {
    match c
    case Fill => 0
    case Swap => 1
    case Stalled => 2
    case DeletedFromCatalog => 3
    case Quarantined => 4
  }

  function Numbers(e: Event): seq<nat> {
    match e
    case Add(h, size, seeders, location, cause, chance, roll, floor, displaced) =>
      [0, h, size, seeders, location, CauseNumber(cause), Folded(chance.mantissa), Folded(chance.exponent),
       Folded(roll.mantissa), Folded(roll.exponent), floor] + displaced
    case Remove(h, size, seeders, location, cause) => [1, h, size, seeders, location, CauseNumber(cause)]
  }

  lemma NumbersTellEventsApart(e: Event, f: Event)
    requires Numbers(e) == Numbers(f)
    ensures e == f
  {
    var s, t := Numbers(e), Numbers(f);
    assert s[0] == t[0] && s[1] == t[1] && s[2] == t[2] && s[3] == t[3] && s[4] == t[4] && s[5] == t[5];
    if e.Add? {
      assert s[6] == t[6] && s[7] == t[7] && s[8] == t[8] && s[9] == t[9] && s[10] == t[10];
      assert e.displaced == s[11..] == t[11..] == f.displaced;
    }
  }

  function Written(e: Event): seq<byte> {
    [MARK] + TextOf(Numbers(e))
  }

  lemma WrittenTellsEventsApart(e: Event, f: Event)
    requires Written(e) == Written(f)
    ensures e == f
  {
    assert TextOf(Numbers(e)) == Written(e)[1..] == Written(f)[1..] == TextOf(Numbers(f));
    TextsReadBack(Numbers(e), Numbers(f));
    NumbersTellEventsApart(e, f);
  }

  /** The mark opens an event's text and is nowhere else in it. */
  lemma OneMark(e: Event)
    ensures Written(e) != [] && Written(e)[0] == MARK && NEWLINE !in Written(e)
    ensures forall i :: 0 < i < |Written(e)| ==> Written(e)[i] != MARK
  {
    TextsArePlain(Numbers(e));
    forall i | 0 < i < |Written(e)| ensures Written(e)[i] != MARK {
      assert Written(e)[i] == TextOf(Numbers(e))[i - 1] && TextOf(Numbers(e))[i - 1] in TextOf(Numbers(e));
    }
  }

  ghost function Read(line: seq<byte>): (r: Option<Event>)
    ensures if r.Some? then Written(r.value) == line else forall e: Event :: Written(e) != line
  {
    if e: Event :| Written(e) == line then Some(e) else None
  }

  ghost function EventCodec(): Codec<Event> {
    Codec(Written, Read)
  }

  /** There is a codec that reads every event back, so engines exist, and one that a torn write does not deceive. */
  lemma EventsCanBeWritten()
    ensures Faithful(EventCodec()) && RejectsTornWrites(EventCodec())
  {
    var codec := EventCodec();
    forall e: Event ensures codec.encode(e) != [] && NEWLINE !in codec.encode(e) && codec.decode(codec.encode(e)) == Some(e) {
      OneMark(e);
      WrittenReadsBack(e);
    }
    forall e: Event, f: Event, k | 0 < k <= |codec.encode(f)| ensures codec.decode(codec.encode(f)[..k] + codec.encode(e)) == None {
      TornIsUnreadable(e, f, k);
    }
  }

  lemma WrittenReadsBack(e: Event)
    ensures Read(Written(e)) == Some(e)
  {
    WrittenTellsEventsApart(e, Read(Written(e)).value);
  }

  lemma TornIsUnreadable(e: Event, f: Event, k: nat)
    requires 0 < k <= |Written(f)|
    ensures Read(Written(f)[..k] + Written(e)) == None
  {
    var line := Written(f)[..k] + Written(e);
    OneMark(e);
    assert line[k] == MARK;
    forall g: Event ensures Written(g) != line {
      OneMark(g);
    }
  }
}
