/** Powers of two and the bitwise operators of the C sources, on unbounded naturals.
    The kernel only ever xors with one bit and ands with a run of low bits; the lemmas
    here give those two uses their arithmetic meaning. */
module Bits {

  function Pow2(n: nat): (r: nat)
    ensures r > 0
  {
    if n == 0 then 1 else 2 * Pow2(n - 1)
  }

  function BitXor(a: nat, b: nat): nat
    decreases a + b
  {
    if a == 0 && b == 0 then 0 else (a + b) % 2 + 2 * BitXor(a / 2, b / 2)
  }

  function BitAnd(a: nat, b: nat): nat
    decreases a + b
  {
    if a == 0 || b == 0 then 0 else (if a % 2 == 1 && b % 2 == 1 then 1 else 0) + 2 * BitAnd(a / 2, b / 2)
  }

  lemma MulLe(a: int, b: int, m: nat)
    requires a <= b
    ensures m * a <= m * b
  {
    assert m * b - m * a == m * (b - a);
  }

  lemma DivUnique(x: int, m: int, q: int, r: int)
    requires 0 <= r < m && x == m * q + r
    ensures x / m == q && x % m == r
  {
    var q', r' := x / m, x % m;
    assert x == m * q' + r';
    if q < q' {
      MulLe(q + 1, q', m);
      assert false;
    } else if q' < q {
      MulLe(q' + 1, q, m);
      assert false;
    }
  }

  lemma HalveDivMod(x: nat, m: nat)
    requires m > 0
    ensures (x / 2) / m == x / (2 * m)
    ensures x % (2 * m) == 2 * ((x / 2) % m) + x % 2
  {
    var q, r := (x / 2) / m, (x / 2) % m;
    assert x / 2 == m * q + r;
    assert x == (2 * m) * q + (2 * r + x % 2) by {
      assert x == 2 * (x / 2) + x % 2;
      assert 2 * (m * q) == (2 * m) * q;
    }
    DivUnique(x, 2 * m, q, 2 * r + x % 2);
  }

  lemma {:induction false} XorZero(p: nat)
    ensures BitXor(p, 0) == p
  {
    if p > 0 {
      XorZero(p / 2);
    }
  }

  lemma XorLowestBit(p: nat)
    ensures BitXor(p, 1) == if p % 2 == 0 then p + 1 else p - 1
  {
    XorZero(p / 2);
    assert BitXor(p, 1) == (p + 1) % 2 + 2 * BitXor(p / 2, 0);
  }

  lemma XorStep(p: nat, m: nat)
    requires m > 0
    requires BitXor(p / 2, m) == if ((p / 2) / m) % 2 == 0 then p / 2 + m else p / 2 - m
    ensures BitXor(p, 2 * m) == if (p / (2 * m)) % 2 == 0 then p + 2 * m else p - 2 * m
  {
    HalveDivMod(p, m);
    XorEven(p, m);
  }

  lemma XorEven(p: nat, m: nat)
    requires m > 0
    ensures BitXor(p, 2 * m) == p % 2 + 2 * BitXor(p / 2, m)
  {
    var b := 2 * m;
    assert b / 2 == m && (p + b) % 2 == p % 2;
    assert BitXor(p, b) == (p + b) % 2 + 2 * BitXor(p / 2, b / 2);
  }

  /** Xor with one bit adds that bit or takes it away. */
  lemma {:induction false} XorOneBit(p: nat, o: nat)
    ensures BitXor(p, Pow2(o)) == if (p / Pow2(o)) % 2 == 0 then p + Pow2(o) else p - Pow2(o)
    decreases o
  {
    if o == 0 {
      XorLowestBit(p);
    } else {
      XorOneBit(p / 2, o - 1);
      XorStep(p, Pow2(o - 1));
    }
  }

  lemma AndOdd(w: nat, b: nat)
    requires b % 2 == 1
    ensures BitAnd(w, b) == w % 2 + 2 * BitAnd(w / 2, b / 2)
  {
  }

  lemma AndMaskStep(w: nat, m: nat, b: nat)
    requires m > 0 && b == 2 * m - 1 && BitAnd(w / 2, m - 1) == (w / 2) % m
    ensures BitAnd(w, b) == w % (2 * m)
  {
    AndOdd(w, b);
    assert b / 2 == m - 1;
    HalveDivMod(w, m);
  }

  /** And with 2^k - 1 is the remainder modulo 2^k. */
  lemma {:induction false} AndLowMask(w: nat, k: nat)
    ensures BitAnd(w, Pow2(k) - 1) == w % Pow2(k)
    decreases k
  {
    if k > 0 {
      AndLowMask(w / 2, k - 1);
      AndMaskStep(w, Pow2(k - 1), Pow2(k) - 1);
    }
  }

  lemma {:induction false} Pow2Monotone(a: nat, b: nat)
    requires a <= b
    ensures Pow2(a) <= Pow2(b)
    decreases b - a
  {
    if a < b {
      Pow2Monotone(a, b - 1);
    }
  }

  lemma {:induction false} Pow2Add(a: nat, b: nat)
    ensures Pow2(a + b) == Pow2(a) * Pow2(b)
    decreases b
  {
    if b > 0 {
      Pow2Add(a, b - 1);
      assert Pow2(a + b) == 2 * (Pow2(a) * Pow2(b - 1)) == Pow2(a) * (2 * Pow2(b - 1));
    }
  }
}
