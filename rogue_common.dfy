// common.h of the roguelike example: the integer macros `MIN`, `MAX`,
// `ABS`, `CLAMP`, `SIGN` and `RND_RANGE`, C's truncating `/` and `%` that
// the other files of the example rely on, and the stretchy buffer
// (`sb_push`, `sb_count`, `sb_add` over `stb__sbgrowf`).
module RogueCommon {
  /** `MIN(a, b)` (common.h:22). */
  function Min(a: int, b: int): (r: int)
    ensures r <= a && r <= b && (r == a || r == b)
  {
    if a < b then a else b
  }

  /** `MAX(a, b)` (common.h:23). */
  function Max(a: int, b: int): (r: int)
    ensures r >= a && r >= b && (r == a || r == b)
  {
    if a > b then a else b
  }

  /** `ABS(a)` (common.h:24), on unbounded integers: `ABS(INT_MIN)` does not overflow here. */
  function Abs(a: int): (r: int)
    ensures r >= 0 && (r == a || r == -a)
  {
    if a < 0 then -a else a
  }

  /**
   * `CLAMP(x, low, high)` (common.h:25): `high` is tested first, so with
   * `low > high` a large x still gives `high`.
   */
  function Clamp(x: int, low: int, high: int): (r: int)
    ensures low <= high ==> low <= r <= high
    ensures low <= x <= high ==> r == x
    ensures x > high ==> r == high
  {
    if x > high then high else if x < low then low else x
  }

  /** Clamping twice into the same interval changes nothing more. */
  lemma ClampIdempotent(x: int, low: int, high: int)
    requires low <= high
    ensures Clamp(Clamp(x, low, high), low, high) == Clamp(x, low, high)
  {
  }

  /** `SIGN(x)` (common.h:27). */
  function Sign(x: int): (r: int)
    ensures r == -1 || r == 0 || r == 1
    ensures r * x == Abs(x)
    ensures r == 0 <==> x == 0
  {
    if x == 0 then 0 else if x < 0 then -1 else 1
  }

  /** C's `/` on `int`: the quotient rounded toward zero. */
  function CDiv(a: int, b: int): (q: int)
    requires b != 0
    ensures Abs(q) == Abs(a) / Abs(b)
    ensures q == 0 || (q > 0 <==> (a < 0) == (b < 0))
  {
    var q := Abs(a) / Abs(b);
    if (a < 0) != (b < 0) then -q else q
  }

  /** C's `%` on `int`: the remainder has the sign of the dividend, and `a / b * b + a % b == a`. */
  function CRem(a: int, b: int): (r: int)
    requires b != 0
    ensures a == b * CDiv(a, b) + r
    ensures Abs(r) < Abs(b)
    ensures r == 0 || (r < 0 <==> a < 0)
  {
    CDivRem(a, b);
    var m := Abs(a) % Abs(b);
    if a < 0 then -m else m
  }

  lemma CDivRem(a: int, b: int)
    requires b != 0
    ensures var m := Abs(a) % Abs(b); a == b * CDiv(a, b) + (if a < 0 then -m else m)
  {
    var aa, bb := Abs(a), Abs(b);
    var q, m := aa / bb, aa % bb;
    assert aa == bb * q + m;
    if a >= 0 && b > 0 {
      assert b * CDiv(a, b) == bb * q;
    } else if a >= 0 {
      assert b * CDiv(a, b) == (-bb) * (-q);
    } else if b > 0 {
      assert b * CDiv(a, b) == bb * (-q);
    } else {
      assert b * CDiv(a, b) == (-bb) * q;
    }
  }

  /** For a non-negative dividend and a positive divisor C and Dafny agree. */
  lemma CDivNatural(a: int, b: int)
    requires 0 <= a && 0 < b
    ensures CDiv(a, b) == a / b && CRem(a, b) == a % b
  {
  }

  /** C's remainder of a negative dividend is not Dafny's: -1 % 8 is -1, not 7. */
  lemma CRemNegative()
    ensures CRem(-1, 8) == -1 && -1 % 8 == 7
  {
  }

  /**
   * `RND_RANGE(a, b)` (common.h:15) for the value `r` that `rand()`
   * returned: `r % (b + 1 - a) + a` with C's remainder.
   */
  function RndRange(r: int, a: int, b: int): (v: int)
    requires b + 1 - a != 0
    ensures 0 <= r && a <= b ==> a <= v <= b
  {
    CRem(r, b + 1 - a) + a
  }

  /** Every value of the range comes out of some `rand()` result. */
  lemma RndRangeOnto(a: int, b: int, v: int)
    requires a <= v <= b
    ensures RndRange(v - a, a, b) == v
  {
    CDivNatural(v - a, b + 1 - a);
  }

  /**
   * The new capacity `stb__sbgrowf(arr, increment, …)` (common.h:47-50)
   * asks for: twice the old one (0 for a NULL buffer) or the count plus
   * the increment, whichever is more.
   */
  function GrowCap(present: bool, cap: int, count: int, increment: int): (m: int)
    requires 0 <= count && 0 <= increment
    ensures m >= count + increment
    ensures present ==> m >= 2 * cap
    ensures m == count + increment || (present && m == 2 * cap)
  {
    var dbl := if present then 2 * cap else 0;
    var needed := count + increment;
    if dbl > needed then dbl else needed
  }

  /** `stb__sbneedgrow(a, n)` (common.h:43): NULL, or no room for n more with one slot spare. */
  predicate NeedGrow(present: bool, cap: int, count: int, n: int) {
    !present || count + n >= cap
  }

  /**
   * A stretchy buffer variable `T* a`: NULL (`present` false), or a
   * pointer just past the two-int header `[m, n]` holding the capacity
   * `cap` and the live elements `items`.
   */
  class Stretchy<T> {
    var present: bool
    var cap: int
    var items: seq<T>

    ghost predicate Valid()
      reads this
    {
      (!present ==> cap == 0 && items == []) && (present ==> |items| <= cap)
    }

    /** A `T* a = NULL;` declaration. */
    constructor ()
      ensures Valid() && !present && items == []
    {
      present, cap, items := false, 0, [];
    }

    /** `sb_count(a)` (common.h:35): 0 for NULL, else the count in the header. */
    function Count(): (n: int)
      requires Valid()
      reads this
      ensures n == |items|
      ensures !present ==> n == 0
    {
      if present then |items| else 0
    }

    /**
     * `stb__sbgrow(a, n)` (common.h:45-61) when `realloc` succeeds: the
     * capacity in the header becomes `GrowCap(…)`, the count is kept, and
     * a buffer allocated from NULL starts at count 0.
     */
    method Grow(increment: int)
      requires Valid() && increment >= 0
      modifies this
      ensures Valid() && present
      ensures cap == GrowCap(old(present), old(cap), old(Count()), increment)
      ensures items == old(items)
    {
      cap := GrowCap(present, cap, Count(), increment);
      present := true;
    }

    /**
     * `sb_push(a, v)` (common.h:34): grow by 1 when `stb__sbneedgrow`
     * says so, then store v at index `count` and count it.
     */
    method Push(v: T)
      requires Valid()
      modifies this
      ensures Valid() && present
      ensures items == old(items) + [v]
      ensures cap == if NeedGrow(old(present), old(cap), old(Count()), 1)
        then GrowCap(old(present), old(cap), old(Count()), 1) else old(cap)
    {
      if NeedGrow(present, cap, Count(), 1) {
        Grow(1);
      }
      items := items + [v];
    }

    /**
     * `sb_add(a, n)` (common.h:36): grow by n when needed, count n more
     * elements and return the index of the first of them. The new slots
     * hold whatever the memory held, given here as `junk`.
     */
    method Add(n: int, junk: seq<T>) returns (first: int)
      requires Valid() && n >= 0 && |junk| == n
      modifies this
      ensures Valid() && present
      ensures first == old(Count()) && items == old(items) + junk
      ensures items[first..] == junk
      ensures cap == if NeedGrow(old(present), old(cap), old(Count()), n)
        then GrowCap(old(present), old(cap), old(Count()), n) else old(cap)
    {
      if NeedGrow(present, cap, Count(), n) {
        Grow(n);
      }
      first := |items|;
      items := items + junk;
    }
  }

  /** The capacity after k `sb_push`es into a NULL buffer, as `Stretchy.Push` computes it. */
  function CapAfterPushes(k: nat): int {
    if k == 0 then 0
    else
      assert 0 <= k - 1;
      var m := CapAfterPushes(k - 1);
      if NeedGrow(k > 1, m, k - 1, 1) then GrowCap(k > 1, m, k - 1, 1) else m
  }

  /** Pushing one at a time never wastes more than half of the allocation: count ≤ cap ≤ 2·count. */
  lemma {:induction false} PushesAmortized(k: nat)
    requires k >= 1
    ensures k <= CapAfterPushes(k) <= 2 * k
  {
    if k > 1 {
      PushesAmortized(k - 1);
    }
  }
}
