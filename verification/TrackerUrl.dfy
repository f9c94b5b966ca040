/** Truncation of a raw tracker byte-string at the end of its URL. */
module TrackerUrl {
  import opened Words

  const COLON: byte := 58
  const SLASH: byte := 47
  const SEPARATOR: seq<byte> := [58, 47, 47]

  predicate Printable(b: byte) {
    0x21 <= b <= 0x7e
  }

  predicate Digit(b: byte) {
    48 <= b <= 57
  }

  predicate SchemeByte(b: byte) {
    Digit(b) || 65 <= b <= 90 || 97 <= b <= 122 || b == 43 || b == 45 || b == 46
  }

  /** The first index from `k` on whose byte satisfies `p`, or the length. */
  function FirstFrom(s: seq<byte>, p: byte -> bool, k: nat): (i: nat)
    requires k <= |s|
    ensures k <= i <= |s|
    ensures forall n :: k <= n < i ==> !p(s[n])
    ensures i < |s| ==> p(s[i])
    decreases |s| - k
  {
    if k == |s| || p(s[k]) then k else FirstFrom(s, p, k + 1)
  }

  // ---- what a URL is ----

  function OutsideScheme(): byte -> bool {
    (b: byte) => !SchemeByte(b)
  }

  predicate IsUrl(s: seq<byte>) {
    var i := FirstFrom(s, OutsideScheme(), 0);
    i > 0 && i + 3 < |s| && s[i..i + 3] == SEPARATOR
  }

  /** `is_url`. */
  method CheckUrl(s: seq<byte>) returns (url: bool)
    ensures url == IsUrl(s)
  {
    var i := 0;
    while i < |s| && SchemeByte(s[i])
      invariant 0 <= i <= |s|
      invariant FirstFrom(s, OutsideScheme(), 0) == FirstFrom(s, OutsideScheme(), i)
    {
      i := i + 1;
    }
    if i == 0 || !(i + 3 <= |s| && s[i..i + 3] == SEPARATOR) {
      return false;
    }
    return |s| > i + 3;
  }

  lemma FirstIs(s: seq<byte>, p: byte -> bool, i: nat)
    requires i < |s| && p(s[i]) && forall n :: 0 <= n < i ==> !p(s[n])
    ensures FirstFrom(s, p, 0) == i
  {
  }

  lemma SliceOfPrefix(s: seq<byte>, f: nat, i: nat)
    requires i + 3 <= f <= |s|
    ensures s[..f][i..i + 3] == s[i..i + 3]
  {
  }

  /** Lengthening a URL leaves it one. */
  lemma UrlIsMonotone(s: seq<byte>, e: nat, f: nat)
    requires e <= f <= |s| && IsUrl(s[..e])
    ensures IsUrl(s[..f])
  {
    var i := FirstFrom(s[..e], OutsideScheme(), 0);
    assert forall n :: 0 <= n <= i ==> s[..f][n] == s[..e][n];
    FirstIs(s[..f], OutsideScheme(), i);
    SliceOfPrefix(s, e, i);
    SliceOfPrefix(s, f, i);
  }

  // ---- where the URL ends ----

  predicate SeparatorAt(s: seq<byte>, i: nat) {
    i + 3 <= |s| && s[i..i + 3] == SEPARATOR
  }

  /** `://` stands at `q`. */
  predicate Parts(s: seq<byte>, q: int) {
    0 <= q && q + 3 <= |s| && s[q] == 58 && s[q + 1] == 47 && s[q + 2] == 47
  }

  lemma SeparatorParts(s: seq<byte>, q: nat)
    ensures SeparatorAt(s, q) <==> Parts(s, q)
  {
    if q + 3 <= |s| {
      assert s[q..q + 3][0] == s[q] && s[q..q + 3][1] == s[q + 1] && s[q..q + 3][2] == s[q + 2];
    }
    if Parts(s, q) {
      assert s[q..q + 3] == [58, 47, 47];
    }
  }

  function FindSeparator(s: seq<byte>, k: nat): (i: nat)
    requires k <= |s|
    ensures k <= i <= |s|
    ensures forall n :: k <= n < i ==> !SeparatorAt(s, n)
    ensures i < |s| ==> SeparatorAt(s, i)
    decreases |s| - k
  {
    if k == |s| || SeparatorAt(s, k) then k else FindSeparator(s, k + 1)
  }

  /** The index just past the authority section, or 0 without a separator. */
  function AuthorityEnd(s: seq<byte>): (end: nat)
    ensures end <= |s|
  {
    var p := FindSeparator(s, 0);
    if p == |s| then 0 else FirstFrom(s, (b: byte) => b == SLASH, p + 3)
  }

  function PrintableEnd(s: seq<byte>): nat {
    FirstFrom(s, (b: byte) => !Printable(b), 0)
  }

  /** The end of the digit run at `i`, within `end`. */
  function RunEnd(s: seq<byte>, i: nat, end: nat): (j: nat)
    requires i <= end <= |s|
    ensures i <= j <= end
    ensures forall n :: i <= n < j ==> Digit(s[n])
    ensures j < end ==> !Digit(s[j])
    decreases end - i
  {
    if i == end || !Digit(s[i]) then i else RunEnd(s, i + 1, end)
  }

  predicate StartsRun(s: seq<byte>, i: nat)
    requires i < |s|
  {
    Digit(s[i]) && (i == 0 || !Digit(s[i - 1]))
  }

  /** A leaked length prefix starts at `i`: digits, a colon, outside the authority, after a URL. */
  predicate LeakAt(s: seq<byte>, end: nat, authEnd: nat, i: nat)
    requires i < end <= |s|
  {
    && StartsRun(s, i)
    && RunEnd(s, i, end) < end
    && s[RunEnd(s, i, end)] == COLON
    && i >= authEnd
    && IsUrl(s[..i])
  }

  function FirstLeak(s: seq<byte>, end: nat, authEnd: nat, i: nat): (r: nat)
    requires i <= end <= |s|
    ensures i <= r <= end
    ensures forall n :: i <= n < r ==> !LeakAt(s, end, authEnd, n)
    ensures r < end ==> LeakAt(s, end, authEnd, r)
    decreases end - i
  {
    if i == end || LeakAt(s, end, authEnd, i) then i else FirstLeak(s, end, authEnd, i + 1)
  }

  function UrlEnd(raw: seq<byte>): (e: nat)
    ensures e <= PrintableEnd(raw)
  {
    FirstLeak(raw, PrintableEnd(raw), AuthorityEnd(raw), 0)
  }

  function Truncated(raw: seq<byte>): seq<byte> {
    if IsUrl(raw[..UrlEnd(raw)]) then raw[..UrlEnd(raw)] else []
  }

  /** The last slash before `n`, if any. */
  function LastSlash(s: seq<byte>, n: nat): (p: int)
    requires n <= |s|
    ensures -1 <= p < n
    ensures p >= 0 ==> s[p] == SLASH
  {
    if n == 0 then -1 else if s[n - 1] == SLASH then n - 1 else LastSlash(s, n - 1)
  }

  /** Walk over the digits at `i`. */
  method SkipDigits(raw: seq<byte>, i: nat, end: nat) returns (j: nat)
    requires i <= end <= |raw|
    ensures j == RunEnd(raw, i, end)
  {
    j := i;
    while j < end && Digit(raw[j])
      invariant i <= j <= end
      invariant RunEnd(raw, i, end) == RunEnd(raw, j, end)
    {
      j := j + 1;
    }
  }

  /** The forward search: the first leaked length prefix, or the end of the printable bytes. */
  method FindUrlEnd(raw: seq<byte>) returns (end: nat)
    ensures end == UrlEnd(raw)
  {
    end := PrintableEnd(raw);
    var authEnd := AuthorityEnd(raw);
    var i := 0;
    while i < end
      invariant 0 <= i <= end
      invariant 0 < i < end ==> !Digit(raw[i - 1]) || !Digit(raw[i])
      invariant FirstLeak(raw, end, authEnd, 0) == FirstLeak(raw, end, authEnd, i)
    {
      if Digit(raw[i]) {
        var leak, next := PassRun(raw, end, authEnd, i);
        if leak {
          return i;
        }
        i := next;
      } else {
        i := i + 1;
      }
    }
  }

  /** The digit run at `i`: a leak, or passed over with the colon that made it look like one. */
  method PassRun(raw: seq<byte>, end: nat, authEnd: nat, i: nat) returns (leak: bool, next: nat)
    requires i < end <= |raw| && Digit(raw[i]) && (i == 0 || !Digit(raw[i - 1]))
    ensures leak == LeakAt(raw, end, authEnd, i)
    ensures !leak ==> i < next <= end && FirstLeak(raw, end, authEnd, i) == FirstLeak(raw, end, authEnd, next)
    ensures !leak && next < end ==> !Digit(raw[next - 1]) || !Digit(raw[next])
  {
    var j := SkipDigits(raw, i, end);
    if j < end && raw[j] == COLON && j > i && i >= authEnd {
      leak := CheckUrl(raw[..i]);
      if !leak {
        SkipRun(raw, end, authEnd, i);
      }
      next := j + 1;
      return;
    }
    SkipRun(raw, end, authEnd, i);
    return false, j;
  }

  /** A digit run that is no leak is passed over whole, its colon included. */
  lemma SkipRun(s: seq<byte>, end: nat, authEnd: nat, i: nat)
    requires i < end <= |s| && Digit(s[i]) && !LeakAt(s, end, authEnd, i)
    ensures var j := RunEnd(s, i, end);
            && i < j
            && FirstLeak(s, end, authEnd, i) == FirstLeak(s, end, authEnd, j)
            && (j < end ==> FirstLeak(s, end, authEnd, i) == FirstLeak(s, end, authEnd, j + 1))
  {
    var j := RunEnd(s, i, end);
    NoLeakInside(s, end, authEnd, i, j);
    if j < end {
      NoLeakInside(s, end, authEnd, i, j + 1);
    }
  }

  /**
   * The backward search for an earlier slash: it never recovers a URL, because a prefix of a string
   * that is not a URL is not one either.
   */
  method BackToUrl(raw: seq<byte>, end: nat) returns (url: seq<byte>)
    requires end <= |raw|
    ensures url == if IsUrl(raw[..end]) then raw[..end] else []
  {
    var e := end;
    while true
      invariant 0 <= e <= end
      invariant e < end ==> !IsUrl(raw[..end])
      decreases e
    {
      if e == 0 {
        return raw[..0];
      }
      var isUrl := CheckUrl(raw[..e]);
      if isUrl {
        UrlIsMonotone(raw, e, end);
        return raw[..e];
      }
      var p := LastSlash(raw, e - 1);
      if p < 0 {
        return raw[..0];
      }
      e := p;
    }
  }

  /** `trunc_url`. */
  method TruncUrl(raw: seq<byte>) returns (url: seq<byte>)
    ensures url == Truncated(raw)
  {
    var end := FindUrlEnd(raw);
    url := BackToUrl(raw, end);
  }

  /** Inside a digit run, past its first byte, and on the byte after it, no leak starts. */
  lemma {:induction false} NoLeakInside(s: seq<byte>, end: nat, authEnd: nat, i: nat, j: nat)
    requires i < j <= end <= |s| && Digit(s[i]) && !LeakAt(s, end, authEnd, i)
    requires forall n :: i < n < j ==> Digit(s[n - 1]) || !Digit(s[n])
    ensures FirstLeak(s, end, authEnd, i) == FirstLeak(s, end, authEnd, j)
  {
    forall n | i < n < j ensures !LeakAt(s, end, authEnd, n) {
    }
    SkipToNext(s, end, authEnd, i, j);
  }

  lemma {:induction false} SkipToNext(s: seq<byte>, end: nat, authEnd: nat, i: nat, j: nat)
    requires i <= j <= end <= |s|
    requires forall n :: i <= n < j ==> !LeakAt(s, end, authEnd, n)
    ensures FirstLeak(s, end, authEnd, i) == FirstLeak(s, end, authEnd, j)
    decreases j - i
  {
    if i < j {
      SkipToNext(s, end, authEnd, i + 1, j);
    }
  }

  /** The result is a printable prefix of the input, and a URL unless it is empty. */
  lemma TruncatedShape(raw: seq<byte>)
    ensures var t := Truncated(raw);
            && t <= raw
            && (t == [] || IsUrl(t))
            && (forall k :: 0 <= k < |t| ==> Printable(t[k]))
  {
    var t := Truncated(raw);
    forall k | 0 <= k < |t| ensures Printable(t[k]) {
      assert !((b: byte) => !Printable(b))(raw[k]);
    }
  }

  /** In a URL the separator of the scheme is the first separator. */
  lemma UrlSeparator(s: seq<byte>, e: nat)
    requires e <= |s| && IsUrl(s[..e])
    ensures FindSeparator(s, 0) == FirstFrom(s[..e], OutsideScheme(), 0)
  {
    var i := FirstFrom(s[..e], OutsideScheme(), 0);
    SliceOfPrefix(s, e, i);
    assert SeparatorAt(s, i);
    forall n | 0 <= n < i ensures !SeparatorAt(s, n) {
      assert !OutsideScheme()(s[..e][n]);
      SeparatorParts(s, n);
    }
  }

  /** Cutting a URL out moves the end of its authority no further than the cut. */
  lemma AuthorityOfPrefix(s: seq<byte>, e: nat)
    requires e <= |s| && IsUrl(s[..e])
    ensures AuthorityEnd(s[..e]) == if AuthorityEnd(s) < e then AuthorityEnd(s) else e
  {
    var t := s[..e];
    UrlSeparator(s, e);
    assert t[..e] == t;
    UrlSeparator(t, e);
    var p := FindSeparator(s, 0);
    var isSlash := (b: byte) => b == SLASH;
    var a, b := FirstFrom(s, isSlash, p + 3), FirstFrom(t, isSlash, p + 3);
    assert forall n :: 0 <= n < e ==> t[n] == s[n];
    if b < e {
      assert isSlash(s[b]);
    }
    if a < e {
      assert isSlash(t[a]);
    }
  }

  /** A leak of the truncated string would have been a leak of the original. */
  lemma LeakOfPrefix(s: seq<byte>, end: nat, e: nat, authEnd: nat, i: nat)
    requires i < e <= end <= |s|
    requires LeakAt(s[..e], e, authEnd, i)
    ensures LeakAt(s, end, authEnd, i)
  {
    var t := s[..e];
    var j := RunEnd(t, i, e);
    assert forall n :: 0 <= n < e ==> t[n] == s[n];
    RunEndIs(s, i, end, j);
    assert t[..i] == s[..i];
  }

  lemma {:induction false} RunEndIs(s: seq<byte>, i: nat, end: nat, j: nat)
    requires i <= j < end <= |s| && !Digit(s[j])
    requires forall n :: i <= n < j ==> Digit(s[n])
    ensures RunEnd(s, i, end) == j
    decreases j - i
  {
    if i < j {
      RunEndIs(s, i + 1, end, j);
    }
  }

  /** Truncation is a normal form: truncating again changes nothing. */
  lemma TruncationIsIdempotent(raw: seq<byte>)
    ensures Truncated(Truncated(raw)) == Truncated(raw)
  {
    var e := UrlEnd(raw);
    if IsUrl(raw[..e]) {
      var t := raw[..e];
      TruncatedShape(raw);
      assert PrintableEnd(t) == e;
      AuthorityOfPrefix(raw, e);
      var authEnd := AuthorityEnd(raw);
      var u := UrlEnd(t);
      if u < e {
        assert LeakAt(t, e, AuthorityEnd(t), u);
        LeakOfPrefix(raw, PrintableEnd(raw), e, AuthorityEnd(t), u);
      }
      assert u == e;
      assert t[..e] == t;
    }
  }

  /**
   * Nothing else is lost: the result is empty exactly when the printable part is no URL, and the
   * authority, port and dotted quads included, always survives.
   */
  lemma AuthorityIsKept(raw: seq<byte>)
    ensures Truncated(raw) == [] <==> !IsUrl(raw[..PrintableEnd(raw)])
    ensures IsUrl(raw[..PrintableEnd(raw)]) ==> |Truncated(raw)| >= Min(AuthorityEnd(raw), PrintableEnd(raw))
  {
    var e := UrlEnd(raw);
    if IsUrl(raw[..e]) {
      UrlIsMonotone(raw, e, PrintableEnd(raw));
    }
  }

  // ---- in plain bytes ----

  /** Letters, digits, plus, minus and dot; then `://`; then something more. */
  lemma UrlExactly(s: seq<byte>)
    ensures IsUrl(s) <==> exists i :: SchemeOf(s, i)
  {
    var i := FirstFrom(s, OutsideScheme(), 0);
    if IsUrl(s) {
      assert s[i..i + 3][0] == 58 && s[i..i + 3][1] == 47 && s[i..i + 3][2] == 47;
      assert SchemeOf(s, i);
    }
    if k :| SchemeOf(s, k) {
      assert forall n :: 0 <= n < k ==> !OutsideScheme()(s[n]);
      FirstIs(s, OutsideScheme(), k);
      assert s[k..k + 3] == [58, 47, 47];
    }
  }

  predicate SchemeOf(s: seq<byte>, i: int) {
    && 0 < i && i + 3 < |s|
    && (forall n :: 0 <= n < i ==>
          48 <= s[n] <= 57 || 65 <= s[n] <= 90 || 97 <= s[n] <= 122 || s[n] == 43 || s[n] == 45 || s[n] == 46)
    && Parts(s, i)
  }

  lemma SeparatorIsFirst(s: seq<byte>)
    ensures var f := FindSeparator(s, 0);
            (f < |s| ==> Parts(s, f)) && (forall q :: 0 <= q < f ==> !Parts(s, q)) && (f == |s| ==> forall q :: !Parts(s, q))
  {
    forall q: nat ensures SeparatorAt(s, q) <==> Parts(s, q) {
      SeparatorParts(s, q);
    }
  }

  /** The authority runs from behind the first `://` to the next slash, or to the end; without one there is none. */
  lemma AuthorityExactly(s: seq<byte>)
    ensures (forall q :: !Parts(s, q)) ==> AuthorityEnd(s) == 0
    ensures forall p :: Parts(s, p) && (forall q :: 0 <= q < p ==> !Parts(s, q)) ==> RunsToSlash(s, p + 3, AuthorityEnd(s))
  {
    SeparatorIsFirst(s);
  }

  predicate RunsToSlash(s: seq<byte>, from: int, e: nat) {
    0 <= from <= e <= |s| && (forall n :: from <= n < e ==> s[n] != 47) && (e < |s| ==> s[e] == 47)
  }

  /** The printable bytes end before the first that is a space, a control or above the tilde. */
  lemma PrintableExactly(s: seq<byte>)
    ensures var e := PrintableEnd(s);
            e <= |s| && (forall n :: 0 <= n < e ==> 0x21 <= s[n] <= 0x7e) && (e < |s| ==> !(0x21 <= s[e] <= 0x7e))
  {
  }

  /** From `i` a whole run of digits and then a colon, all printable, outside the authority, behind a URL. */
  ghost predicate LeaksAt(s: seq<byte>, i: int) {
    && 0 <= i < PrintableEnd(s) <= |s|
    && (i > 0 ==> !(48 <= s[i - 1] <= 57))
    && (exists j :: i < j < PrintableEnd(s) && s[j] == 58 && forall n :: i <= n < j ==> 48 <= s[n] <= 57)
    && i >= AuthorityEnd(s)
    && IsUrl(s[..i])
  }

  lemma LeaksExactly(s: seq<byte>, i: nat)
    requires i < PrintableEnd(s)
    ensures PrintableEnd(s) <= |s|
    ensures LeaksAt(s, i) <==> LeakAt(s, PrintableEnd(s), AuthorityEnd(s), i)
  {
    PrintableExactly(s);
    var end := PrintableEnd(s);
    var j := RunEnd(s, i, end);
    if LeaksAt(s, i) {
      var k :| i < k < end && s[k] == 58 && forall n :: i <= n < k ==> 48 <= s[n] <= 57;
      RunEndIs(s, i, end, k);
    }
    if LeakAt(s, end, AuthorityEnd(s), i) {
      assert i < j < end && s[j] == 58 && forall n :: i <= n < j ==> 48 <= s[n] <= 57;
    }
  }

  /** A URL is cut at the first leak, and only there; without one all that is printable stays. */
  lemma CutAtFirstLeak(raw: seq<byte>)
    requires IsUrl(raw[..PrintableEnd(raw)])
    ensures var e := |Truncated(raw)|;
            && e <= PrintableEnd(raw) && Truncated(raw) == raw[..e]
            && (forall i :: 0 <= i < e ==> !LeaksAt(raw, i))
            && (e == PrintableEnd(raw) || LeaksAt(raw, e))
  {
    AuthorityIsKept(raw);
    var e := UrlEnd(raw);
    assert Truncated(raw) == raw[..e];
    forall i | 0 <= i < e ensures !LeaksAt(raw, i) {
      LeaksExactly(raw, i);
    }
    if e < PrintableEnd(raw) {
      LeaksExactly(raw, e);
    }
  }
}
