/** Value types shared by the models of the streamer's components. */
module Common {

  /** A `uint8_t` or one byte of a C string. */
  type byte = x: int | 0 <= x < 256

  /** The first value a `uint32_t` cannot hold. */
  const UINT32_LIMIT: nat := 0x1_0000_0000

  /** A `uint32_t`, also for the bits of an `int`. */
  type uint32 = x: int | 0 <= x < UINT32_LIMIT

  datatype Option<+T> = None | Some(value: T)

  /** The first of two optional values that is there. */
  function OrElse<T>(a: Option<T>, b: Option<T>): Option<T> {
    if a.Some? then a else b
  }

  /** `strchr` as an index: the first position of `c` in `s`, or |s| when `c` does not occur. */
  function IndexOf<T(==)>(s: seq<T>, c: T): (k: nat)
    ensures k <= |s|
    ensures k < |s| ==> s[k] == c
    ensures forall i :: 0 <= i < k ==> s[i] != c
  {
    if s == [] || s[0] == c then 0 else 1 + IndexOf(s[1..], c)
  }

  /** The only position that can be the first occurrence. */
  lemma {:induction false} IndexOfIs<T>(s: seq<T>, c: T, k: nat)
    requires k <= |s|
    requires forall i :: 0 <= i < k ==> s[i] != c
    requires k < |s| ==> s[k] == c
    ensures IndexOf(s, c) == k
  {
  }

  function Pow2(n: nat): (p: nat)
    ensures p > 0
  {
    if n == 0 then 1 else 2 * Pow2(n - 1)
  }

  /** `mask & (1 << n)` is not zero. */
  predicate HasBit(mask: nat, n: nat) {
    if n == 0 then mask % 2 == 1 else HasBit(mask / 2, n - 1)
  }

  /** Bit `n` by division: the lowest bit after `n` halvings. */
  lemma {:induction false} HasBitIs(mask: nat, n: nat)
    ensures HasBit(mask, n) <==> mask / Pow2(n) % 2 == 1
  {
    hide HasBit, Pow2;
    PowStep(n);
    HasBitByQuotient(mask, n);
  }

  function Quotient(m: nat, d: nat): nat
    requires d > 0
  {
    m / d
  }

  lemma {:induction false} HasBitByQuotient(mask: nat, n: nat)
    ensures HasBit(mask, n) <==> Quotient(mask, Pow2(n)) % 2 == 1
  {
    hide Quotient, Pow2;
    PowStep(n);
    if n == 0 {
      assert Quotient(mask, 1) == mask by { ByOne(mask); }
    } else {
      HasBitByQuotient(mask / 2, n - 1);
      HalfFirst(mask, Pow2(n - 1));
    }
  }

  lemma {:induction false} ByOne(m: nat)
    ensures Quotient(m, 1) == m
  {
  }

  lemma {:induction false} PowStep(n: nat)
    ensures Pow2(n) == if n == 0 then 1 else 2 * Pow2(n - 1)
    ensures Pow2(n) > 0
  {
  }

  lemma {:induction false} HalfFirst(m: nat, p: nat)
    requires p > 0
    ensures Quotient(m / 2, p) == Quotient(m, 2 * p)
  {
    var (q, r) := (m / 2 / p, m / 2 % p);
    assert m / 2 == q * p + r;
    assert m == q * (2 * p) + (2 * r + m % 2) by {
      assert q * (2 * p) == 2 * (q * p);
    }
    UniqueQuotient(m, 2 * p, q, 2 * r + m % 2);
  }

  lemma {:induction false} UniqueQuotient(m: nat, d: nat, q: nat, r: nat)
    requires m == q * d + r && r < d
    ensures m / d == q
  {
    var e := m / d - q;
    assert e * d == r - m % d by {
      assert m == m / d * d + m % d;
      assert (m / d - q) * d == m / d * d - q * d;
    }
    MultipleIsFar(e, d);
  }

  lemma {:induction false} MultipleIsFar(d: int, size: nat)
    ensures d >= 1 ==> d * size >= size
    ensures d <= -1 ==> d * size + size <= 0
  {
    assert d * size == (d - 1) * size + size;
    assert d * size == (d + 1) * size - size;
  }
}
