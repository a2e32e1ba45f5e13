/** Bytes, sequences, powers of two, and the few facts about them that the other modules share. */
module Arith {

  type Byte = x: int | 0 <= x < 256

  const WORD32: nat := 0x1_0000_0000

  function Min(a: nat, b: nat): nat {
    if a <= b then a else b
  }

  function Repeat<T>(n: nat, v: T): (s: seq<T>)
    ensures |s| == n && forall j :: 0 <= j < n ==> s[j] == v
  {
    seq(n, _ => v)
  }

  /** `s` stands in `data` at position i. */
  ghost predicate HasAt<T>(data: seq<T>, i: nat, s: seq<T>) {
    i + |s| <= |data| && forall j {:trigger s[j]} :: 0 <= j < |s| ==> data[i + j] == s[j]
  }

  lemma ElementAt<T>(data: seq<T>, i: nat, s: seq<T>, j: nat)
    requires HasAt(data, i, s) && j < |s|
    ensures data[i + j] == s[j]
  {
    assert s[j] == s[j];
  }

  lemma SplitAt<T>(data: seq<T>, i: nat, a: seq<T>, b: seq<T>)
    requires HasAt(data, i, a + b)
    ensures HasAt(data, i, a) && HasAt(data, i + |a|, b)
  {
    forall j | 0 <= j < |a|
      ensures data[i + j] == a[j]
    {
      assert (a + b)[j] == a[j];
    }
    forall j | 0 <= j < |b|
      ensures data[i + |a| + j] == b[j]
    {
      assert (a + b)[|a| + j] == b[j];
    }
  }

  function Pow2(n: nat): (p: nat)
    ensures p >= 1
  {
    if n == 0 then 1 else 2 * Pow2(n - 1)
  }

  lemma {:induction false} Pow2Add(a: nat, b: nat)
    ensures Pow2(a + b) == Pow2(a) * Pow2(b)
  {
    if a > 0 {
      Pow2Add(a - 1, b);
      assert Pow2(a + b) == 2 * (Pow2(a - 1) * Pow2(b));
    }
  }

  /** `x >= y * d` is what puts the quotient by `d` at or above `y`. */
  lemma DivAtLeast(x: nat, y: nat, d: nat)
    requires d >= 1 && x >= y * d
    ensures x / d >= y
  {
    MulMonotone(x / d + 1, if x / d < y then y else x / d + 1, d);
    Distribute(x / d, 1, d);
  }

  lemma MulMonotone(x: int, y: int, d: nat)
    requires x <= y
    ensures x * d <= y * d
  {
  }

  lemma Distribute(x: int, y: int, d: int)
    ensures (x + y) * d == x * d + y * d
  {
  }

  lemma Double(x: int, d: int)
    ensures x * (2 * d) == 2 * (x * d) == (2 * x) * d
  {
  }

  lemma {:induction false} Pow2Monotone(a: nat, b: nat)
    requires a <= b
    ensures Pow2(a) <= Pow2(b)
    decreases b
  {
    if a < b { Pow2Monotone(a, b - 1); }
  }

  lemma Pow2Of16()
    ensures Pow2(15) == 32768 && Pow2(16) == 65536
  {
    assert Pow2(4) == 16;
    Pow2Add(4, 4);
    assert Pow2(7) == 128;
    Pow2Add(7, 8);
  }

  lemma QuotientUnique(x: nat, d: nat, q: nat, r: nat)
    requires d >= 1 && r < d && x == q * d + r
    ensures x / d == q && x % d == r
  {
    if x / d < q {
      MulMonotone(x / d + 1, q, d);
      assert false;
    }
    if x / d > q {
      MulMonotone(q + 1, x / d, d);
      assert false;
    }
  }
}
