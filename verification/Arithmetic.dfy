/** Integer arithmetic shared by the executor model and by the response-time
    analyses: the source's unsigned words, integer ceilings and finite sums. */
module Arithmetic {

  // Number of values of the source's uint64_t and uint.
  const WORD: int := 0x1_0000_0000_0000_0000
  const UINT: int := 0x1_0000_0000

  /** The value an unsigned 64-bit operation leaves behind. */
  function Wrap(x: int): (r: nat)
    ensures r < WORD
    ensures 0 <= x < WORD ==> r == x
    ensures -WORD <= x < 0 ==> r == x + WORD
  {
    if 0 <= x < WORD then x
    else if -WORD <= x < 0 then x + WORD
    else x % WORD
  }

  /** The value an integer leaves in an unsigned 32-bit variable. */
  function Narrow(x: int): (r: nat)
    ensures r < UINT
    ensures 0 <= x < UINT ==> r == x
  {
    if 0 <= x < UINT then x else x % UINT
  }

  lemma WordRepeats(x: int)
    ensures (x + WORD) % WORD == x % WORD
    ensures 0 <= x < WORD ==> x % WORD == x
  {
  }

  lemma UintRepeats(x: int)
    ensures (x + UINT) % UINT == x % UINT
    ensures 0 <= x < UINT ==> x % UINT == x
  {
  }

  lemma WrapIsMod(x: int)
    ensures Wrap(x) == x % WORD
  {
    WordRepeats(x);
    WordRepeats(x + WORD);
  }

  lemma NarrowIsMod(x: int)
    ensures Narrow(x) == x % UINT
  {
    UintRepeats(x);
  }

  /** Both keep the remainder of everything that does not fit. */
  lemma WrapsAround(x: int)
    ensures Wrap(x + WORD) == Wrap(x) && Narrow(x + UINT) == Narrow(x)
  {
    hide Wrap, Narrow;
    WrapIsMod(x);
    WrapIsMod(x + WORD);
    NarrowIsMod(x);
    NarrowIsMod(x + UINT);
    WordRepeats(x);
    UintRepeats(x);
  }

  function Min(a: nat, b: nat): nat {
    if a <= b then a else b
  }

  /** Product and quotient of unsigned values, as named operations: their results
      are known to be unsigned without looking at the arithmetic. */
  function Times(a: nat, b: nat): nat {
    MulMono(0, a, 0, b);
    a * b
  }

  function Quot(a: nat, b: nat): nat
    requires b > 0
  {
    DivBounds(a, b);
    a / b
  }

  /** Integer ceiling: the number of blocks of size b that cover a. */
  function CeilDiv(a: nat, b: nat): (q: nat)
    requires b > 0
    ensures a <= q * b
    ensures q > 0 ==> (q - 1) * b < a
  {
    if a == 0 then 0
    else
      DivBounds(a - 1, b);
      (a - 1) / b + 1
  }

  lemma DivBounds(x: nat, b: nat)
    requires b > 0
    ensures 0 <= x / b
    ensures x / b * b <= x < (x / b + 1) * b
  {
    assert x == x / b * b + x % b;
  }

  lemma MulMono(a: nat, b: nat, c: nat, d: nat)
    requires a <= b && c <= d
    ensures a * c <= b * d
  {
    assert a * c <= b * c;
    assert b * c <= b * d;
  }

  lemma MulLe(q: int, p: int, b: nat)
    ensures q <= p ==> q * b <= p * b
  {
    if q <= p {
      assert p * b == q * b + (p - q) * b;
    }
  }

  /** A factor can be read off a strict bound on a product. */
  lemma FactorBelow(p: int, q: int, b: nat)
    requires p * b < q * b
    ensures p < q
  {
    MulLe(q, p, b);
  }

  /** Quotient and remainder are determined by the decomposition. */
  lemma DivModUnique(x: nat, a: nat, r: nat, b: nat)
    requires b > 0 && x == a * b + r && r < b
    ensures x / b == a && x % b == r
  {
    DivBounds(x, b);
    assert (a + 1) * b == a * b + b;
    FactorBelow(a, x / b + 1, b);
    FactorBelow(x / b, a + 1, b);
  }

  /** Stepping an index around a ring of n slots. */
  lemma NextIndex(k: nat, n: nat)
    requires n > 0
    ensures (k % n + 1) % n == (k + 1) % n
  {
    var q, r := k / n, k % n;
    assert k == q * n + r;
    if r + 1 < n {
      DivModUnique(k + 1, q, r + 1, n);
      DivModUnique(r + 1, 0, r + 1, n);
    } else {
      assert (q + 1) * n == q * n + n;
      DivModUnique(k + 1, q + 1, 0, n);
      DivModUnique(n, 1, 0, n);
    }
  }

  lemma DivMono(x: nat, y: nat, b: nat)
    requires b > 0 && x <= y
    ensures x / b <= y / b
  {
    DivBounds(x, b);
    DivBounds(y, b);
    FactorBelow(x / b, y / b + 1, b);
  }

  /** The ceiling grows with its dividend and shrinks with its divisor. */
  lemma CeilDivMono(a: nat, a': nat, b: nat, b': nat)
    requires 0 < b' <= b && a <= a'
    ensures CeilDiv(a, b) <= CeilDiv(a', b')
  {
    var q, q' := CeilDiv(a, b), CeilDiv(a', b');
    if q > 0 {
      assert (q - 1) * b < q' * b by {
        assert q' * b' <= q' * b;
      }
      FactorBelow(q - 1, q', b);
    }
  }

  lemma QuotientBelow(x: nat, b: nat)
    requires b > 0
    ensures x / b <= x
  {
    DivBounds(x, b);
    MulMono(x / b, x / b, 1, b);
  }

  /** The service line stays close to a bound b until b / m + 1. */
  lemma ServiceBelow(b: nat, m: nat, t: nat)
    requires m >= 1 && t <= b / m + 1
    ensures m * t <= b + m && t <= b + 1
  {
    var q := b / m;
    DivBounds(b, m);
    QuotientBelow(b, m);
    MulMono(m, m, t, q + 1);
    assert m * (q + 1) == q * m + m;
  }

  // ---------- finite sums ----------

  function Sum(f: nat -> nat, n: nat): nat {
    if n == 0 then 0 else Sum(f, n - 1) + f(n - 1)
  }

  lemma {:induction false} SumLe(f: nat -> nat, g: nat -> nat, n: nat)
    requires forall k: nat :: k < n ==> f(k) <= g(k)
    ensures Sum(f, n) <= Sum(g, n)
  {
    if n > 0 {
      SumLe(f, g, n - 1);
    }
  }

  lemma {:induction false} SumPlus(f: nat -> nat, g: nat -> nat, h: nat -> nat, n: nat)
    requires forall k: nat :: k < n ==> h(k) == f(k) + g(k)
    ensures Sum(h, n) == Sum(f, n) + Sum(g, n)
  {
    if n > 0 {
      SumPlus(f, g, h, n - 1);
    }
  }

  lemma {:induction false} SumZero(f: nat -> nat, n: nat)
    requires forall k: nat :: k < n ==> f(k) == 0
    ensures Sum(f, n) == 0
  {
    if n > 0 {
      SumZero(f, n - 1);
    }
  }

  /** A sum over more terms is no smaller. */
  lemma {:induction false} SumPrefix(f: nat -> nat, k: nat, n: nat)
    requires k <= n
    ensures Sum(f, k) <= Sum(f, n)
  {
    if k < n {
      SumPrefix(f, k, n - 1);
    }
  }

  /** A single non-zero term is the whole sum. */
  lemma {:induction false} SumSingle(f: nat -> nat, i: nat, n: nat)
    requires i < n
    requires forall k: nat :: k < n && k != i ==> f(k) == 0
    ensures Sum(f, n) == f(i)
  {
    if i == n - 1 {
      SumZero(f, n - 1);
    } else {
      SumSingle(f, i, n - 1);
    }
  }
}
