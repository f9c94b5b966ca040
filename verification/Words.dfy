/** Machine-word arithmetic: the widths and the saturating operations the daemon relies on. */
module Words {
  const U64_MAX: nat := 0xFFFF_FFFF_FFFF_FFFF
  const U32_MAX: nat := 0xFFFF_FFFF
  const I32_MAX: nat := 0x7FFF_FFFF

  newtype byte = x: int | 0 <= x < 256

  /** An info hash, as the number its digits spell, so that order is kept. */
  type Hash = nat

  datatype Option<+T> = None | Some(value: T)

  function Min(a: int, b: int): int {
    if a <= b then a else b
  }

  function Max(a: int, b: int): int {
    if a >= b then a else b
  }

  /** `u64::saturating_add`. */
  function SatAdd64(a: nat, b: nat): nat {
    if a + b > U64_MAX then U64_MAX else a + b
  }

  /** `u32::saturating_add`. */
  function SatAdd32(a: nat, b: nat): nat {
    if a + b > U32_MAX then U32_MAX else a + b
  }

  /** Unsigned `saturating_sub`. */
  function SatSub(a: nat, b: nat): nat {
    if b <= a then a - b else 0
  }

  // ---- small laws the solver is handed rather than left to find ----

  lemma Cancel(a: real, b: real, c: real)
    requires c > 0.0
    ensures a * c < b * c <==> a < b
  {
  }

  lemma QuotientBrackets(n: nat, d: nat)
    requires d > 0
    ensures n / d * d <= n < (n / d + 1) * d
  {
    assert n == n / d * d + n % d;
  }

  lemma MinusMore<K, V>(m: map<K, V>, gone: set<K>, k: K)
    ensures m - gone - {k} == m - (gone + {k})
  {
  }

  lemma MinusAbsent<K, V>(m: map<K, V>, k: K)
    ensures k !in m ==> m - {k} == m
  {
  }
}
