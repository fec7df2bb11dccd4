// Division and remainder facts used by the segment layout and by ring addressing.
module Arith {

  /** Euclidean division is unique: a quotient and remainder that rebuild `x` are `x / d` and `x % d`. */
  lemma DivModUnique(x: nat, d: nat, q: nat, r: nat)
    requires 0 <= r < d
    requires x == q * d + r
    ensures x / d == q && x % d == r
  {
    var q', r' := x / d, x % d;
    assert x == q' * d + r';
    if q' > q {
      assert q' * d >= (q + 1) * d by { MulMonotone(q + 1, q', d); }
      assert false;
    } else if q' < q {
      assert q * d >= (q' + 1) * d by { MulMonotone(q' + 1, q, d); }
      assert false;
    }
  }

  lemma MulMonotone(a: nat, b: nat, d: nat)
    requires a <= b
    ensures a * d <= b * d
  {
  }

  /** Adding at most one lap `d <= n` to `a` moves its position on an `n`-slot ring forward by `d`, wrapping once. */
  lemma ModAdd(a: nat, d: nat, n: nat)
    requires 0 < n && d <= n
    ensures (a + d) % n == if a % n + d < n then a % n + d else a % n + d - n
  {
    var q, r := a / n, a % n;
    assert a == q * n + r;
    if r + d < n {
      DivModUnique(a + d, n, q, r + d);
    } else {
      assert a + d == (q + 1) * n + (r + d - n);
      DivModUnique(a + d, n, q + 1, r + d - n);
    }
  }

  /** Two sequence numbers less than one lap apart land in different slots. */
  lemma ModDistinct(a: nat, b: nat, n: nat)
    requires a < b < a + n
    ensures a % n != b % n
  {
    ModAdd(a, b - a, n);
  }

  /** A product of a slot index below `n` with the element size stays inside `n` elements. */
  lemma SlotBytesWithin(slot: nat, count: nat, n: nat, size: nat)
    requires slot + count <= n
    ensures slot * size + count * size <= n * size
  {
    assert slot * size + count * size == (slot + count) * size;
    MulMonotone(slot + count, n, size);
  }
}
