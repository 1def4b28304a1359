/** Products, quotients and remainders by a variable.  They are defined by recursion, so that a proof
    unfolds them a step at a time, and shown to be the built-in operators. */
module Arith {

  function Times(a: nat, k: nat): nat {
    if a == 0 then 0 else Times(a - 1, k) + k
  }

  function Quot(x: nat, m: nat): nat
    requires m > 0
  {
    if x < m then 0 else 1 + Quot(x - m, m)
  }

  function Rem(x: nat, m: nat): (r: nat)
    requires m > 0
    ensures r < m
  {
    if x < m then x else Rem(x - m, m)
  }

  lemma {:induction false} TimesIsProduct(a: nat, k: nat)
    ensures Times(a, k) == a * k
  {
    if a > 0 {
      TimesIsProduct(a - 1, k);
      assert a * k == (a - 1) * k + k;
    }
  }

  lemma {:induction false} QuotRem(x: nat, m: nat)
    requires m > 0
    ensures x == Times(Quot(x, m), m) + Rem(x, m)
  {
    if x >= m {
      QuotRem(x - m, m);
    }
  }

  lemma QuotIsQuotient(x: nat, m: nat)
    requires m > 0
    ensures Quot(x, m) == x / m && Rem(x, m) == x % m
  {
    QuotRem(x, m);
    TimesIsProduct(Quot(x, m), m);
    DivModOf(x, m, Quot(x, m), Rem(x, m));
  }

  lemma DivModOf(x: nat, m: nat, q: nat, r: nat)
    requires r < m && x == q * m + r
    ensures x / m == q && x % m == r
  {
    TimesIsProduct(q, m);
    TimesIsProduct(x / m, m);
    PairInjective(q, r, x / m, x % m, m);
  }

  lemma TimesStep(a: nat, k: nat)
    ensures Times(a + 1, k) == Times(a, k) + k
  {
  }

  lemma {:induction false} TimesMono(a: nat, b: nat, k: nat)
    requires a <= b
    ensures Times(a, k) <= Times(b, k)
    ensures a < b ==> Times(a, k) + k <= Times(b, k)
    decreases b
  {
    if a < b {
      TimesMono(a, b - 1, k);
    }
  }

  lemma {:induction false} TimesWider(a: nat, k: nat, m: nat)
    requires k <= m
    ensures Times(a, k) <= Times(a, m)
  {
    if a > 0 {
      TimesWider(a - 1, k, m);
    }
  }

  lemma EntryBelow(j: nat, size: nat, m: nat, k: nat)
    requires 0 < k <= m && j < Quot(size, m)
    ensures Times(j + 1, k) <= size
  {
    hide Times, Quot, Rem;
    QuotRem(size, m);
    TimesMono(j + 1, Quot(size, m), m);
    TimesWider(j + 1, k, m);
  }

  lemma {:induction false} TimesAdd(a: nat, b: nat, k: nat)
    ensures Times(a + b, k) == Times(a, k) + Times(b, k)
    decreases b
  {
    if b > 0 {
      TimesAdd(a, b - 1, k);
      assert a + b - 1 == a + (b - 1);
    }
  }

  lemma {:induction false} TimesAssoc(n: nat, a: nat, k: nat)
    ensures Times(Times(n, a), k) == Times(n, Times(a, k))
  {
    if n > 0 {
      TimesAssoc(n - 1, a, k);
      TimesAdd(Times(n - 1, a), a, k);
    }
  }

  /** Row and column are determined by the index they build. */
  lemma PairInjective(q: nat, r: nat, q': nat, r': nat, k: nat)
    requires r < k && r' < k
    requires Times(q, k) + r == Times(q', k) + r'
    ensures q == q' && r == r'
  {
    if q <= q' {
      TimesMono(q, q', k);
    } else {
      TimesMono(q', q, k);
    }
  }

  /** An index below Times(n, k) splits into a row below n and a column below k. */
  lemma Split(i: nat, n: nat, k: nat)
    requires k > 0 && i < Times(n, k)
    ensures Quot(i, k) < n && i == Times(Quot(i, k), k) + Rem(i, k)
  {
    QuotRem(i, k);
    if Quot(i, k) <= n {
      TimesMono(Quot(i, k), n, k);
    } else {
      TimesMono(n, Quot(i, k), k);
    }
  }

  /** The number of blocks of m that cover x. */
  function Ceil(x: nat, m: nat): nat
    requires m > 0
  {
    Quot(x + m - 1, m)
  }

  /** Ceil is the least count that covers x. */
  lemma CeilLeast(x: nat, m: nat, n: nat)
    requires m > 0
    ensures x <= Times(Ceil(x, m), m)
    ensures Times(n, m) < x <==> n < Ceil(x, m)
  {
    QuotRem(x + m - 1, m);
    if n < Ceil(x, m) {
      TimesMono(n, Ceil(x, m), m);
    } else {
      TimesMono(Ceil(x, m), n, m);
    }
  }

  /** Both parts of a product by a multiple of four are multiples of four. */
  lemma {:induction false} TimesByFour(q: nat, w: nat)
    ensures Times(q, 4 * w) == 4 * Times(q, w)
  {
    if q > 0 {
      TimesByFour(q - 1, w);
    }
  }

  /** The c-th word of a table of k sectors of m bytes lies whole inside one of its sectors. */
  lemma WordInTable(c: nat, m: nat, k: nat)
    requires m > 0 && m % 4 == 0 && 4 * c < Times(k, m)
    ensures Quot(4 * c, m) < k && Rem(4 * c, m) + 4 <= m
  {
    Split(4 * c, k, m);
    TimesByFour(Quot(4 * c, m), m / 4);
  }

  /** Two words of such a table do not overlap. */
  lemma WordsDisjoint(c: nat, c': nat, m: nat)
    requires m > 0 && c != c' && Quot(4 * c, m) == Quot(4 * c', m)
    ensures Rem(4 * c, m) + 4 <= Rem(4 * c', m) || Rem(4 * c', m) + 4 <= Rem(4 * c, m)
  {
    QuotRem(4 * c, m);
    QuotRem(4 * c', m);
  }
}
