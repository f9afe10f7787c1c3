/** Integer facts the solver does not find by itself. Products and quotients with a
    variable operand are written as the recursive functions Times, Quot and Rem, which
    the solver treats as linear; the lemmas here tie them to `*`, `/` and `%`. */
module Arith {

  function Times(n: nat, l: nat): nat {
    if n == 0 then 0 else Times(n - 1, l) + l
  }

  function Quot(c: nat, l: nat): nat
    requires l > 0
    decreases c
  {
    if c < l then 0 else Quot(c - l, l) + 1
  }

  function Rem(c: nat, l: nat): (r: nat)
    requires l > 0
    ensures r < l
    decreases c
  {
    if c < l then c else Rem(c - l, l)
  }

  lemma {:induction false} TimesIsProduct(n: nat, l: nat)
    ensures Times(n, l) == n * l
  {
    if n > 0 {
      TimesIsProduct(n - 1, l);
      assert n * l == (n - 1) * l + l;
    }
  }

  /** Consecutive stretches of length l do not overlap. */
  lemma {:induction false} TimesApart(i: nat, j: nat, l: nat)
    requires i < j
    ensures Times(i, l) + l <= Times(j, l)
  {
    if i + 1 < j {
      TimesApart(i, j - 1, l);
    }
  }

  lemma {:induction false} TimesMonotone(i: nat, j: nat, l: nat)
    requires i <= j
    ensures Times(i, l) <= Times(j, l)
  {
    if i < j {
      TimesApart(i, j, l);
    }
  }

  lemma {:induction false} TimesAdds(i: nat, j: nat, l: nat)
    ensures Times(i + j, l) == Times(i, l) + Times(j, l)
  {
    if j > 0 {
      TimesAdds(i, j - 1, l);
    }
  }

  lemma {:induction false} TimesTwice(n: nat, a: nat, b: nat)
    ensures Times(n, Times(a, b)) == Times(Times(n, a), b)
  {
    if n > 0 {
      TimesTwice(n - 1, a, b);
      TimesAdds(Times(n - 1, a), a, b);
    }
  }

  /** A place is its stretch and its offset in it. */
  lemma {:induction false} QuotRem(c: nat, l: nat)
    requires l > 0
    ensures c == Times(Quot(c, l), l) + Rem(c, l)
    decreases c
  {
    if c >= l {
      QuotRem(c - l, l);
    }
  }

  /** Stretch and offset recover from the place. */
  lemma {:induction false} QuotRemOf(q: nat, r: nat, l: nat)
    requires r < l
    ensures Quot(Times(q, l) + r, l) == q && Rem(Times(q, l) + r, l) == r
  {
    if q > 0 {
      QuotRemOf(q - 1, r, l);
    }
  }

  lemma QuotBelow(c: nat, n: nat, l: nat)
    requires l > 0
    ensures c < Times(n, l) <==> Quot(c, l) < n
  {
    QuotRem(c, l);
    if Quot(c, l) < n {
      TimesApart(Quot(c, l), n, l);
    } else {
      TimesMonotone(n, Quot(c, l), l);
    }
  }

  /** Quot and Rem are the machine's division. */
  lemma {:induction false} QuotIsDiv(c: nat, l: nat)
    requires l > 0
    ensures Quot(c, l) == c / l && Rem(c, l) == c % l
  {
    QuotRem(c, l);
    TimesIsProduct(Quot(c, l), l);
    DivModOf(Quot(c, l), Rem(c, l), l);
  }

  lemma {:induction false} StretchesApart(i: int, j: int, l: nat)
    requires i < j
    ensures i * l + l <= j * l
    decreases j - i
  {
    if i + 1 < j {
      StretchesApart(i + 1, j, l);
    }
    assert (i + 1) * l == i * l + l;
  }

  /** Division recovers the stretch and the place in it. */
  lemma {:induction false} DivModOf(q: nat, r: nat, l: nat)
    requires r < l
    ensures (q * l + r) / l == q && (q * l + r) % l == r
  {
    var n := q * l + r;
    assert n == (n / l) * l + n % l;
    if n / l < q {
      StretchesApart(n / l, q, l);
    } else if q < n / l {
      StretchesApart(q, n / l, l);
    }
  }

  /** Dividing twice, with both remainders. */
  lemma DivTwice(v: nat, a: nat, b: nat)
    requires a > 0 && b > 0
    ensures a * b > 0 && v / (a * b) == v / a / b && v % (a * b) == v % a + a * (v / a % b)
  {
    var q, m := v / a / b, v / a % b;
    assert v / a == q * b + m;
    var r := v % a + a * m;
    calc {
      v;
      v / a * a + v % a;
      (q * b + m) * a + v % a;
      { assert (q * b + m) * a == q * (a * b) + a * m; }
      q * (a * b) + r;
    }
    StretchesApart(m, b, a);
    DivModOf(q, r, a * b);
  }

  /** Aligned stretches that share a point are the same stretch. */
  lemma AlignedApart(a: nat, b: nat, s: nat, l: nat)
    requires l > 0 && Rem(a, l) == 0 && Rem(b, l) == 0
    requires a <= s < a + l && b <= s < b + l
    ensures a == b
  {
    QuotRem(a, l);
    QuotRem(b, l);
    if Quot(a, l) < Quot(b, l) {
      TimesApart(Quot(a, l), Quot(b, l), l);
    } else if Quot(b, l) < Quot(a, l) {
      TimesApart(Quot(b, l), Quot(a, l), l);
    }
  }

  /** The aligned stretch around a point of a whole number of stretches. */
  lemma StretchInside(s: nat, n: nat, l: nat)
    requires l > 0 && s < n && Rem(n, l) == 0
    ensures var a := Times(Quot(s, l), l);
      Rem(a, l) == 0 && a + Rem(s, l) == s && a + l <= n
  {
    QuotRem(s, l);
    QuotRem(n, l);
    QuotRemOf(Quot(s, l), 0, l);
    if Quot(n, l) <= Quot(s, l) {
      TimesMonotone(Quot(n, l), Quot(s, l), l);
    } else {
      TimesApart(Quot(s, l), Quot(n, l), l);
    }
  }
}
