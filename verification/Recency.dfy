/** Least-recently-used order over a history of lookups. */
module Recency {
  import opened Words

  datatype Key = Key(uid: nat, file: nat)

  predicate NoRepeat(s: seq<Key>) {
    forall i, j :: 0 <= i < j < |s| ==> s[i] != s[j]
  }

  function IndexOf(s: seq<Key>, k: Key): (i: nat)
    requires k in s
    ensures i < |s| && s[i] == k && k !in s[..i]
  {
    if s[0] == k then 0 else 1 + IndexOf(s[1..], k)
  }

  function Without(s: seq<Key>, k: Key): (r: seq<Key>)
    ensures |r| <= |s|
    ensures k !in s ==> r == s
  {
    if k in s then s[..IndexOf(s, k)] + s[IndexOf(s, k) + 1..] else s
  }

  lemma WithoutMembers(s: seq<Key>, k: Key)
    requires NoRepeat(s)
    ensures NoRepeat(Without(s, k))
    ensures forall x :: x in Without(s, k) <==> x in s && x != k
  {
    if k in s {
      var i := IndexOf(s, k);
      assert s == s[..i] + [k] + s[i + 1..];
    }
  }

  /** The recency list, newest first, after a lookup of `k` in a pool of `cap` handles. */
  function Touch(recent: seq<Key>, k: Key, cap: nat): seq<Key>
    requires cap > 0
  {
    if k in recent then [k] + Without(recent, k) else [k] + recent[..Min(|recent|, cap - 1)]
  }

  function Touches(trace: seq<Key>, cap: nat): seq<Key>
    requires cap > 0
  {
    if trace == [] then [] else Touch(Touches(trace[..|trace| - 1], cap), trace[|trace| - 1], cap)
  }

  /** The distinct keys of a trace, the most recently used first. */
  function ByRecency(trace: seq<Key>): seq<Key> {
    if trace == [] then [] else [trace[|trace| - 1]] + Without(ByRecency(trace[..|trace| - 1]), trace[|trace| - 1])
  }

  /** One past the last position at which `k` was used; 0 if never. */
  function LastUse(trace: seq<Key>, k: Key): (n: nat)
    ensures n <= |trace|
  {
    if trace == [] then 0
    else if trace[|trace| - 1] == k then |trace|
    else LastUse(trace[..|trace| - 1], k)
  }

  /** The distinct keys used since `k` was. */
  function UsedSince(trace: seq<Key>, k: Key): set<Key> {
    set x | x in trace && LastUse(trace, x) > LastUse(trace, k)
  }

  lemma ConsMembers(k: Key, rest: seq<Key>)
    requires NoRepeat(rest) && k !in rest
    ensures NoRepeat([k] + rest)
    ensures forall x :: x in [k] + rest <==> x == k || x in rest
  {
  }

  lemma SnocMembers(trace: seq<Key>)
    requires trace != []
    ensures forall x :: x in trace <==> x in trace[..|trace| - 1] || x == trace[|trace| - 1]
  {
    assert trace == trace[..|trace| - 1] + [trace[|trace| - 1]];
  }

  lemma {:induction false} ByRecencyMembers(trace: seq<Key>)
    ensures NoRepeat(ByRecency(trace))
    ensures forall k :: k in ByRecency(trace) <==> k in trace
  {
    if trace != [] {
      var before, k := trace[..|trace| - 1], trace[|trace| - 1];
      ByRecencyMembers(before);
      WithoutMembers(ByRecency(before), k);
      ConsMembers(k, Without(ByRecency(before), k));
      SnocMembers(trace);
    }
  }

  /** A bounded list is the front of the unbounded one. */
  lemma {:induction false} TouchesArePrefix(trace: seq<Key>, cap: nat)
    requires cap > 0
    ensures Touches(trace, cap) == ByRecency(trace)[..Min(cap, |ByRecency(trace)|)]
  {
    if trace != [] {
      var before, k := trace[..|trace| - 1], trace[|trace| - 1];
      TouchesArePrefix(before, cap);
      ByRecencyMembers(before);
      TouchOfPrefix(ByRecency(before), k, cap);
    }
  }

  lemma TouchOfPrefix(r: seq<Key>, k: Key, cap: nat)
    requires cap > 0 && NoRepeat(r)
    ensures var m := Min(cap, |r|);
            var s := [k] + Without(r, k);
            Touch(r[..m], k, cap) == s[..Min(cap, |s|)]
  {
    if k !in r {
      TouchNew(r, k, cap);
    } else if IndexOf(r, k) < Min(cap, |r|) {
      TouchInside(r, k, cap);
    } else {
      TouchBeyond(r, k, cap);
    }
  }

  lemma ConsPrefix(k: Key, t: seq<Key>, n: nat)
    requires 0 < n <= |t| + 1
    ensures ([k] + t)[..n] == [k] + t[..n - 1]
  {
  }

  lemma PrefixOfPrefix(r: seq<Key>, n: nat, m: nat)
    requires n <= m <= |r|
    ensures r[..m][..n] == r[..n]
  {
  }

  lemma TouchNew(r: seq<Key>, k: Key, cap: nat)
    requires cap > 0 && k !in r
    ensures Touch(r[..Min(cap, |r|)], k, cap) == ([k] + r)[..Min(cap, |r| + 1)]
  {
    var m := Min(cap, |r|);
    assert k !in r[..m];
    ConsPrefix(k, r, Min(cap, |r| + 1));
    PrefixOfPrefix(r, Min(m, cap - 1), m);
  }

  lemma TouchInside(r: seq<Key>, k: Key, cap: nat)
    requires cap > 0 && NoRepeat(r) && k in r && IndexOf(r, k) < Min(cap, |r|)
    ensures Touch(r[..Min(cap, |r|)], k, cap) == ([k] + Without(r, k))[..Min(cap, |r|)]
  {
    var m, i := Min(cap, |r|), IndexOf(r, k);
    assert r[..m][i] == k;
    IndexIs(r[..m], k, i);
    FrontWithout(r, i, m);
    ConsPrefix(k, Without(r, k), m);
  }

  lemma TouchBeyond(r: seq<Key>, k: Key, cap: nat)
    requires cap > 0 && k in r && IndexOf(r, k) >= Min(cap, |r|)
    ensures Touch(r[..Min(cap, |r|)], k, cap) == ([k] + Without(r, k))[..Min(cap, |r|)]
  {
    var i := IndexOf(r, k);
    PrefixOfPrefix(r, cap, i);
    assert k !in r[..cap] by {
      assert k !in r[..i] && forall x :: x in r[..i][..cap] ==> x in r[..i];
    }
    ConsPrefix(k, Without(r, k), cap);
    PrefixOfPrefix(r, cap - 1, cap);
    assert (r[..i] + r[i + 1..])[..cap - 1] == r[..cap - 1];
  }

  lemma FrontWithout(r: seq<Key>, i: nat, m: nat)
    requires i < m <= |r|
    ensures r[..m][..i] + r[..m][i + 1..] == (r[..i] + r[i + 1..])[..m - 1]
  {
  }

  lemma IndexIs(s: seq<Key>, k: Key, i: nat)
    requires NoRepeat(s) && i < |s| && s[i] == k
    ensures IndexOf(s, k) == i
  {
  }

  ghost predicate NewestFirst(s: seq<Key>, use: Key -> nat) {
    forall i, j :: 0 <= i < j < |s| ==> use(s[i]) > use(s[j])
  }

  lemma WithoutKeepsOrder(s: seq<Key>, k: Key, use: Key -> nat)
    requires NewestFirst(s, use)
    ensures NewestFirst(Without(s, k), use)
  {
    if k in s {
      var n := IndexOf(s, k);
      var r := Without(s, k);
      assert forall i :: 0 <= i < |r| ==> r[i] == s[if i < n then i else i + 1];
    }
  }

  function Uses(trace: seq<Key>): Key -> nat {
    (k: Key) => LastUse(trace, k)
  }

  /** The list runs strictly backwards through the trace. */
  lemma {:induction false} ByRecencyOrder(trace: seq<Key>)
    ensures NewestFirst(ByRecency(trace), Uses(trace))
  {
    if trace != [] {
      var before, k := trace[..|trace| - 1], trace[|trace| - 1];
      ByRecencyOrder(before);
      ByRecencyMembers(before);
      WithoutMembers(ByRecency(before), k);
      WithoutKeepsOrder(ByRecency(before), k, Uses(before));
      UseInFront(Without(ByRecency(before), k), k, Uses(before), Uses(trace));
    }
  }

  lemma UseInFront(rest: seq<Key>, k: Key, before: Key -> nat, after: Key -> nat)
    requires NewestFirst(rest, before)
    requires forall x :: x in rest ==> after(x) == before(x) < after(k)
    ensures NewestFirst([k] + rest, after)
  {
    var s := [k] + rest;
    forall i, j | 0 <= i < j < |s| ensures after(s[i]) > after(s[j]) {
      assert s[j] == rest[j - 1] && rest[j - 1] in rest;
      if i > 0 {
        assert s[i] == rest[i - 1] && rest[i - 1] in rest;
      }
    }
  }

  function Members(s: seq<Key>): set<Key> {
    if s == [] then {} else {s[0]} + Members(s[1..])
  }

  lemma {:induction false} MembersAre(s: seq<Key>, x: Key)
    ensures x in Members(s) <==> x in s
  {
    if s != [] {
      MembersAre(s[1..], x);
      assert s == [s[0]] + s[1..];
    }
  }

  lemma AllMembers(s: seq<Key>)
    ensures forall x :: x in Members(s) <==> x in s
  {
    forall x ensures x in Members(s) <==> x in s {
      MembersAre(s, x);
    }
  }

  lemma {:induction false} DistinctCount(s: seq<Key>)
    requires NoRepeat(s)
    ensures |Members(s)| == |s|
  {
    if s != [] {
      DistinctCount(s[1..]);
      AllMembers(s[1..]);
    }
  }

  /** The keys used since the one at position `i` of the list are the ones in front of it. */
  lemma UsedSincePosition(trace: seq<Key>, i: nat)
    requires i < |ByRecency(trace)|
    ensures |UsedSince(trace, ByRecency(trace)[i])| == i
  {
    var r := ByRecency(trace);
    ByRecencyMembers(trace);
    ByRecencyOrder(trace);
    forall x ensures x in UsedSince(trace, r[i]) <==> x in r[..i] {
      if x in r {
        var j := IndexOf(r, x);
        assert j < i ==> Uses(trace)(r[j]) > Uses(trace)(r[i]) && r[..i][j] == x;
        assert j > i ==> Uses(trace)(r[j]) < Uses(trace)(r[i]);
      }
    }
    AllMembers(r[..i]);
    assert UsedSince(trace, r[i]) == Members(r[..i]);
    DistinctCount(r[..i]);
  }

  /**
   * The least-recently-used law: the pool holds exactly the keys since whose last use fewer than
   * `cap` other keys were used.
   */
  lemma CachedExactlyWhenRecent(trace: seq<Key>, cap: nat, k: Key)
    requires cap > 0
    ensures k in Touches(trace, cap) <==> k in trace && |UsedSince(trace, k)| < cap
  {
    var r := ByRecency(trace);
    TouchesArePrefix(trace, cap);
    ByRecencyMembers(trace);
    if k in r {
      var i := IndexOf(r, k);
      UsedSincePosition(trace, i);
      var m := Min(cap, |r|);
      assert i < m ==> r[..m][i] == k;
      if k in r[..m] {
        var j :| 0 <= j < m && r[..m][j] == k;
        assert r[j] == r[i];
      }
    }
  }

  /** A larger pool always holds a superset. */
  lemma LargerPoolHoldsMore(trace: seq<Key>, small: nat, large: nat, k: Key)
    requires 0 < small <= large
    ensures k in Touches(trace, small) ==> k in Touches(trace, large)
  {
    CachedExactlyWhenRecent(trace, small, k);
    CachedExactlyWhenRecent(trace, large, k);
  }
}
