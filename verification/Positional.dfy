/** Big-endian positional notation in any base: the arithmetic under Base58, RLP, hex and bit strings. */
module Positional {
  import opened Bytes

  function Pow(base: nat, k: nat): nat {
    if k == 0 then 1 else Pow(base, k - 1) * base
  }

  /** Quotient by repeated subtraction; `QuoRemAreDivMod` ties it to the machine operators. */
  function Quo(n: nat, base: nat): (q: nat)
    requires base > 0
    ensures q * base <= n < q * base + base
  {
    if n < base then 0 else 1 + Quo(n - base, base)
  }

  function Rem(n: nat, base: nat): (r: nat)
    requires base > 0
    ensures r < base
  {
    n - Quo(n, base) * base
  }

  function Value(base: nat, ds: seq<nat>): nat {
    if ds == [] then 0 else Value(base, ds[..|ds| - 1]) * base + ds[|ds| - 1]
  }

  /** The `width` low digits of n. */
  function Fixed(base: nat, n: nat, width: nat): (ds: seq<nat>)
    requires base > 0
    ensures |ds| == width && AllBelow(ds, base)
  {
    if width == 0 then [] else Fixed(base, Quo(n, base), width - 1) + [Rem(n, base)]
  }

  /** The digits of n without leading zeros. */
  function Minimal(base: nat, n: nat): (ds: seq<nat>)
    requires base >= 2
    ensures AllBelow(ds, base)
    ensures n == 0 <==> ds == []
    ensures n > 0 ==> ds[0] != 0
    decreases n
  {
    if n == 0 then [] else
      QuoDecreases(n, base);
      Minimal(base, Quo(n, base)) + [Rem(n, base)]
  }

  lemma MulMono(a: int, b: int, c: int)
    requires a <= b && 0 <= c
    ensures a * c <= b * c
  {
  }

  lemma MulAssoc(a: int, b: int, c: int)
    ensures a * (b * c) == (a * b) * c
  {
  }

  lemma QuoDecreases(n: nat, base: nat)
    requires base >= 2 && n > 0
    ensures Quo(n, base) < n
    ensures Quo(n, base) == 0 ==> Rem(n, base) == n
  {
    var q := Quo(n, base);
    assert q * base >= q * 2 by {
      MulMono(2, base, q);
    }
  }

  lemma UniqueDivision(base: nat, q: int, r: int, q': int, r': int)
    requires 0 <= r < base && 0 <= r' < base
    requires q * base + r == q' * base + r'
    ensures q == q' && r == r'
  {
    if q < q' {
      MulMono(q + 1, q', base);
    } else if q' < q {
      MulMono(q' + 1, q, base);
    }
  }

  lemma QuoRemUnique(q: nat, base: nat, r: nat)
    requires r < base
    ensures Quo(q * base + r, base) == q && Rem(q * base + r, base) == r
  {
    var n := q * base + r;
    UniqueDivision(base, Quo(n, base), Rem(n, base), q, r);
  }

  lemma QuoRemAreDivMod(n: nat, base: nat)
    requires base > 0
    ensures Quo(n, base) == n / base && Rem(n, base) == n % base
  {
    UniqueDivision(base, Quo(n, base), Rem(n, base), n / base, n % base);
  }

  lemma {:induction false} PowPositive(base: nat, k: nat)
    requires base > 0
    ensures Pow(base, k) > 0
  {
    if k > 0 {
      PowPositive(base, k - 1);
    }
  }

  lemma {:induction false} PowAdd(base: nat, j: nat, k: nat)
    ensures Pow(base, j + k) == Pow(base, j) * Pow(base, k)
  {
    if k > 0 {
      PowAdd(base, j, k - 1);
    }
  }

  lemma Distribute(x: nat, p: nat, y: nat, base: nat)
    ensures (x * p + y) * base == x * (p * base) + y * base
  {
    MulAssoc(x, p, base);
  }

  lemma {:induction false} ValueConcat(base: nat, a: seq<nat>, b: seq<nat>)
    ensures Value(base, a + b) == Value(base, a) * Pow(base, |b|) + Value(base, b)
  {
    if b == [] {
      assert a + b == a;
    } else {
      var b' := b[..|b| - 1];
      ValueConcat(base, a, b');
      assert (a + b)[..|a + b| - 1] == a + b';
      Distribute(Value(base, a), Pow(base, |b'|), Value(base, b'), base);
    }
  }

  /** The first digit weighs most. */
  lemma LeadingDigit(base: nat, digit: nat, ds: seq<nat>)
    ensures Value(base, [digit] + ds) == digit * Pow(base, |ds|) + Value(base, ds)
    ensures Value(base, []) == 0 && Pow(base, 0) == 1 && Pow(base, |ds| + 1) == base * Pow(base, |ds|)
  {
    ValueConcat(base, [digit], ds);
    assert [digit][..0] == [];
  }

  lemma AppendBound(base: nat, v: nat, digit: nat, bound: nat)
    requires v < bound && digit < base
    ensures v * base + digit < bound * base
  {
    MulMono(v + 1, bound, base);
  }

  lemma {:induction false} ValueBound(base: nat, ds: seq<nat>)
    requires AllBelow(ds, base)
    ensures Value(base, ds) < Pow(base, |ds|)
  {
    if ds != [] {
      var front, last := ds[..|ds| - 1], ds[|ds| - 1];
      ValueBound(base, front);
      AppendBound(base, Value(base, front), last, Pow(base, |front|));
    }
  }

  lemma QuoBelow(base: nat, n: nat, k: nat)
    requires base > 0 && n < Pow(base, k + 1)
    ensures Quo(n, base) < Pow(base, k)
  {
    if Quo(n, base) >= Pow(base, k) {
      MulMono(Pow(base, k), Quo(n, base), base);
    }
  }

  lemma RemIs(n: nat, base: nat)
    requires base > 0
    ensures n == Quo(n, base) * base + Rem(n, base)
  {
  }

  lemma {:induction false} ValueOfFixed(base: nat, n: nat, width: nat)
    requires base > 0
    requires n < Pow(base, width)
    ensures Value(base, Fixed(base, n, width)) == n
  {
    hide Quo, Rem;
    if width > 0 {
      QuoBelow(base, n, width - 1);
      ValueOfFixed(base, Quo(n, base), width - 1);
      assert Fixed(base, n, width)[..width - 1] == Fixed(base, Quo(n, base), width - 1);
      RemIs(n, base);
    }
  }

  lemma {:induction false} FixedOfValue(base: nat, ds: seq<nat>)
    requires base > 0 && AllBelow(ds, base)
    ensures Fixed(base, Value(base, ds), |ds|) == ds
  {
    if ds != [] {
      FixedOfValue(base, ds[..|ds| - 1]);
      QuoRemUnique(Value(base, ds[..|ds| - 1]), base, ds[|ds| - 1]);
    }
  }

  /** Equally long digit strings with one value are equal. */
  lemma ValueInjective(base: nat, a: seq<nat>, b: seq<nat>)
    requires base > 0 && AllBelow(a, base) && AllBelow(b, base)
    requires |a| == |b| && Value(base, a) == Value(base, b)
    ensures a == b
  {
    FixedOfValue(base, a);
    FixedOfValue(base, b);
  }

  lemma {:induction false} ValueOfMinimal(base: nat, n: nat)
    requires base >= 2
    ensures Value(base, Minimal(base, n)) == n
    decreases n
  {
    if n > 0 {
      QuoDecreases(n, base);
      ValueOfMinimal(base, Quo(n, base));
      assert Minimal(base, n)[..|Minimal(base, n)| - 1] == Minimal(base, Quo(n, base));
    }
  }

  lemma {:induction false} MinimalOfValue(base: nat, ds: seq<nat>)
    requires base >= 2 && AllBelow(ds, base)
    requires ds != [] ==> ds[0] != 0
    ensures Minimal(base, Value(base, ds)) == ds
  {
    if ds != [] {
      var front := ds[..|ds| - 1];
      MinimalOfValue(base, front);
      QuoRemUnique(Value(base, front), base, ds[|ds| - 1]);
      assert Value(base, ds) > 0 by {
        if front != [] {
          MulMono(1, Value(base, front), base);
        }
      }
      assert ds == front + [ds[|ds| - 1]];
    }
  }

  lemma {:induction false} ValueOfZeros(base: nat, ds: seq<nat>)
    requires forall i | 0 <= i < |ds| :: ds[i] == 0
    ensures Value(base, ds) == 0
  {
    if ds != [] {
      ValueOfZeros(base, ds[..|ds| - 1]);
    }
  }

  /** Zeros in front change no value. */
  lemma ValueAfterZeros(base: nat, zeros: seq<nat>, ds: seq<nat>)
    requires forall i | 0 <= i < |zeros| :: zeros[i] == 0
    ensures Value(base, zeros + ds) == Value(base, ds)
  {
    ValueConcat(base, zeros, ds);
    ValueOfZeros(base, zeros);
  }

  /** A number below base^k has at most k digits. */
  lemma {:induction false} MinimalLength(base: nat, n: nat, k: nat)
    requires base >= 2 && n < Pow(base, k)
    ensures |Minimal(base, n)| <= k
    decreases k
  {
    if n > 0 {
      QuoDecreases(n, base);
      QuoBelow(base, n, k - 1);
      MinimalLength(base, Quo(n, base), k - 1);
    }
  }
}
