/** The ECMAScript Number operators the dashboard's hash code uses, on the values it uses them on.
    Bitwise operators convert through ToInt32/ToUint32; `+` is only defined here where the double sum
    is exact, so a proof that a program is well formed is a proof that none of its sums rounds. */
module JsNumber {
  import opened Bits
  import Fips180

  /** Integers up to this magnitude are exact doubles. */
  const MAX_EXACT: int := 0x20_0000_0000_0000

  predicate Exact(x: int) { -MAX_EXACT <= x <= MAX_EXACT }

  predicate IsInt32(x: int) { -0x8000_0000 <= x < 0x8000_0000 }

  function ToUint32(x: int): Word { x % WORD }

  function ToInt32(x: int): (r: int)
    ensures IsInt32(r) && ToUint32(r) == ToUint32(x)
  {
    var u := ToUint32(x);
    if u >= 0x8000_0000 then u - WORD else u
  }

  function Plus(x: int, y: int): (r: int)
    requires Exact(x) && Exact(y) && Exact(x + y)
    ensures r == x + y
    ensures ToUint32(r) == Fips180.Add(ToUint32(x), ToUint32(y))
  {
    x + y
  }

  function Or(x: int, y: int): (r: int)
    ensures IsInt32(r) && ToUint32(r) == OrW(ToUint32(x), ToUint32(y))
  {
    ToInt32(OrW(ToUint32(x), ToUint32(y)))
  }

  /** The idiom `x | 0`. */
  function Truncate(x: int): (r: int)
    ensures IsInt32(r) && ToUint32(r) == ToUint32(x)
  {
    OrZero(ToUint32(x));
    Or(x, 0)
  }

  function And(x: int, y: int): (r: int)
    ensures IsInt32(r) && ToUint32(r) == AndW(ToUint32(x), ToUint32(y))
  {
    ToInt32(AndW(ToUint32(x), ToUint32(y)))
  }

  function Xor(x: int, y: int): (r: int)
    ensures IsInt32(r) && ToUint32(r) == XorW(ToUint32(x), ToUint32(y))
  {
    ToInt32(XorW(ToUint32(x), ToUint32(y)))
  }

  function Not(x: int): (r: int)
    ensures IsInt32(r) && ToUint32(r) == NotW(ToUint32(x))
  {
    -ToInt32(x) - 1
  }

  function Shl(x: int, n: nat): (r: int)
    requires n < 32
    ensures IsInt32(r) && ToUint32(r) == ShlW(ToUint32(x), n)
  {
    ToInt32(ShlW(ToUint32(x), n))
  }

  function Ushr(x: int, n: nat): (r: int)
    requires n < 32
    ensures 0 <= r < WORD && ToUint32(r) == Shr(ToUint32(x), n)
  {
    Shr(ToUint32(x), n)
  }

  /** `Math.floor` of a non-negative quotient by a power of two, which a double holds exactly. */
  function QuotientFloor(n: nat, k: nat): (r: nat)
    requires Exact(n)
    ensures r == Shr(n, k)
  {
    FloorIsShift(n, k);
    (n as real / Pow2(k) as real).Floor
  }

  lemma {:induction false} FloorIsShift(n: nat, k: nat)
    ensures (n as real / Pow2(k) as real).Floor == Shr(n, k)
  {
    ShrLow(n, k);
    RealQuotient(n, Pow2(k), Shr(n, k), Low(n, k));
  }

  lemma RealQuotient(n: int, p: int, q: int, r: int)
    requires p > 0 && 0 <= r < p && n == q * p + r
    ensures (n as real / p as real).Floor == q
  {
    var x := n as real / p as real;
    QuotientTimes(n as real, p as real);
    NextMultiple(q, p);
    RealProduct(q, p);
    RealProduct(q + 1, p);
    NotAbove(q as real, x, p as real);
    Below(x, (q + 1) as real, p as real);
  }

  lemma QuotientTimes(n: real, p: real)
    requires p > 0.0
    ensures n / p * p == n
  {
  }

  lemma NextMultiple(q: int, p: int)
    ensures (q + 1) * p == q * p + p
  {
  }

  lemma RealProduct(q: int, p: int)
    ensures (q * p) as real == q as real * p as real
  {
  }

  lemma NotAbove(a: real, b: real, p: real)
    requires p > 0.0 && a * p <= b * p
    ensures a <= b
  {
    assert (b - a) * p >= 0.0;
  }

  lemma Below(a: real, b: real, p: real)
    requires p > 0.0 && a * p < b * p
    ensures a < b
  {
    assert (b - a) * p > 0.0;
  }
}
