/** Machine words of `bits` bits as numbers below Pow2(bits), and the bitwise OR of two of them. */
module Words {
  import opened Arithmetic

  type byte = x: int | 0 <= x < 256

  /** What is left of a number in a word. */
  function Wrap(x: int, bits: nat): (r: nat)
    ensures r < Pow2(bits)
  {
    x % Pow2(bits)
  }

  /** The `|` operator. */
  function Or(a: nat, b: nat): nat {
    if a == 0 then b
    else if b == 0 then a
    else (if a % 2 == 1 || b % 2 == 1 then 1 else 0) + 2 * Or(a / 2, b / 2)
  }

  /** The `&` operator. */
  function And(a: nat, b: nat): (r: nat)
    ensures r <= a && r <= b
  {
    if a == 0 || b == 0 then 0
    else (if a % 2 == 1 && b % 2 == 1 then 1 else 0) + 2 * And(a / 2, b / 2)
  }

  /** The `^` operator. */
  function Xor(a: nat, b: nat): nat {
    if a == 0 then b
    else if b == 0 then a
    else (if a % 2 != b % 2 then 1 else 0) + 2 * Xor(a / 2, b / 2)
  }

  predicate Bit(a: nat, k: nat) {
    if k == 0 then a % 2 == 1 else Bit(a / 2, k - 1)
  }

  /** The operators work on each bit by itself. */
  lemma {:induction false} EachBit(a: nat, b: nat, k: nat)
    ensures Bit(Or(a, b), k) <==> Bit(a, k) || Bit(b, k)
    ensures Bit(And(a, b), k) <==> Bit(a, k) && Bit(b, k)
    ensures Bit(Xor(a, b), k) <==> Bit(a, k) != Bit(b, k)
  {
    NoBits(k);
    OrHalves(a, b);
    AndHalves(a, b);
    XorHalves(a, b);
    if k > 0 {
      EachBit(a / 2, b / 2, k - 1);
    }
  }

  lemma {:induction false} NoBits(k: nat)
    ensures !Bit(0, k)
  {
    if k > 0 {
      NoBits(k - 1);
    }
  }

  /** The bits determine a number. */
  lemma {:induction false} SameBits(a: nat, b: nat)
    requires forall k: nat :: Bit(a, k) <==> Bit(b, k)
    ensures a == b
  {
    assert Bit(a, 0) <==> Bit(b, 0);
    if a != 0 || b != 0 {
      forall k: nat
        ensures Bit(a / 2, k) <==> Bit(b / 2, k)
      {
        assert Bit(a, k + 1) <==> Bit(b, k + 1);
      }
      SameBits(a / 2, b / 2);
    }
  }

  /** Testing a word against a mask of two bits. */
  lemma {:induction false} MaskTest(word: nat, a: nat, b: nat)
    ensures And(word, Or(Pow2(a), Pow2(b))) == Or(Pow2(a), Pow2(b)) <==> Bit(word, a) && Bit(word, b)
  {
    HalvesTest(word, Or(Pow2(a), Pow2(b)));
    MaskHalves(a, b);
    if a > 0 && b > 0 {
      MaskTest(word / 2, a - 1, b - 1);
    } else if a > 0 {
      AndOneBit(word / 2, a - 1);
    } else if b > 0 {
      AndOneBit(word / 2, b - 1);
    }
  }

  lemma {:induction false} MaskHalves(a: nat, b: nat)
    ensures Or(Pow2(a), Pow2(b)) % 2 == (if a > 0 && b > 0 then 0 else 1)
    ensures Or(Pow2(a), Pow2(b)) / 2 ==
      if a > 0 && b > 0 then Or(Pow2(a - 1), Pow2(b - 1)) else if a > 0 then Pow2(a - 1)
      else if b > 0 then Pow2(b - 1) else 0
  {
    OrHalves(Pow2(a), Pow2(b));
  }

  lemma {:induction false} HalvesTest(word: nat, mask: nat)
    ensures And(word, mask) == mask <==> (mask % 2 == 1 ==> word % 2 == 1) && And(word / 2, mask / 2) == mask / 2
  {
    AndHalves(word, mask);
  }

  lemma OrHalves(a: nat, b: nat)
    ensures Or(a, b) % 2 == (if a % 2 == 1 || b % 2 == 1 then 1 else 0) && Or(a, b) / 2 == Or(a / 2, b / 2)
  {
  }

  lemma {:induction false} AndOneBit(word: nat, k: nat)
    ensures And(word, Pow2(k)) == if Bit(word, k) then Pow2(k) else 0
  {
    AndHalves(word, Pow2(k));
    if k > 0 {
      AndOneBit(word / 2, k - 1);
    }
  }

  /** Multiples of 2^k fill the bits above a number below 2^k: OR is addition. */
  lemma {:induction false} OrIsSum(a: nat, k: nat, q: nat)
    requires a < Pow2(k)
    ensures Or(a, q * Pow2(k)) == a + q * Pow2(k)
  {
    if a != 0 && q != 0 {
      assert q * Pow2(k) == 2 * (q * Pow2(k - 1));
      OrIsSum(a / 2, k - 1, q);
    }
  }

  /** AND works on the bits from `k` on and on those below by themselves. */
  lemma {:induction false} AndSplit(a: nat, b: nat, k: nat, q: nat, r: nat)
    requires a < Pow2(k) && b < Pow2(k)
    ensures And(a + q * Pow2(k), b + r * Pow2(k)) == And(a, b) + And(q, r) * Pow2(k)
  {
    if k == 0 {
      assert Pow2(k) == 1 && a == b == 0;
    } else {
      AndSplit(a / 2, b / 2, k - 1, q, r);
      AndSplitHalf(a, b, Pow2(k - 1), Pow2(k), q, r);
    }
  }

  lemma AndSplitHalf(a: nat, b: nat, p: nat, double: nat, q: nat, r: nat)
    requires double == 2 * p
    requires And(a / 2 + q * p, b / 2 + r * p) == And(a / 2, b / 2) + And(q, r) * p
    ensures q * double >= 0 && r * double >= 0
    ensures And(a + q * double, b + r * double) == And(a, b) + And(q, r) * double
  {
    HalfSum(a, q, p, double);
    HalfSum(b, r, p, double);
    HalfSum(0, And(q, r), p, double);
    AndStep(a + q * double, b + r * double, a, b, And(q, r) * p);
  }

  lemma AndStep(x: nat, y: nat, a: nat, b: nat, c: nat)
    requires x % 2 == a % 2 && y % 2 == b % 2 && And(x / 2, y / 2) == And(a / 2, b / 2) + c
    ensures And(x, y) == And(a, b) + 2 * c
  {
    AndHalves(x, y);
    AndHalves(a, b);
  }

  lemma TimesOne(q: nat)
    ensures q * Pow2(0) == q
  {
  }

  lemma HalfSum(a: nat, q: nat, p: nat, double: nat)
    requires double == 2 * p
    ensures (a + q * double) / 2 == a / 2 + q * p && (a + q * double) % 2 == a % 2 && q * double == 2 * (q * p) >= 0
  {
    assert q * (2 * p) == 2 * (q * p);
  }

  lemma AndHalves(a: nat, b: nat)
    ensures And(a, b) == (if a % 2 == 1 && b % 2 == 1 then 1 else 0) + 2 * And(a / 2, b / 2)
  {
  }

  lemma XorHalves(a: nat, b: nat)
    ensures Xor(a, b) == (if a % 2 != b % 2 then 1 else 0) + 2 * Xor(a / 2, b / 2)
  {
  }

  /** So does exclusive OR. */
  lemma {:induction false} XorSplit(a: nat, b: nat, k: nat, q: nat, r: nat)
    requires a < Pow2(k) && b < Pow2(k)
    ensures Xor(a + q * Pow2(k), b + r * Pow2(k)) == Xor(a, b) + Xor(q, r) * Pow2(k)
  {
    if k == 0 {
      TimesOne(q);
      TimesOne(r);
      TimesOne(Xor(q, r));
    } else {
      var p := Pow2(k - 1);
      XorSplit(a / 2, b / 2, k - 1, q, r);
      HalfSum(a, q, p, Pow2(k));
      HalfSum(b, r, p, Pow2(k));
      HalfSum(0, Xor(q, r), p, Pow2(k));
      XorStep(a + q * Pow2(k), b + r * Pow2(k), a, b, Xor(q, r) * p);
    }
  }

  lemma XorStep(x: nat, y: nat, a: nat, b: nat, c: nat)
    requires x % 2 == a % 2 && y % 2 == b % 2 && Xor(x / 2, y / 2) == Xor(a / 2, b / 2) + c
    ensures Xor(x, y) == Xor(a, b) + 2 * c
  {
    XorHalves(x, y);
    XorHalves(a, b);
  }

  lemma {:induction false} XorIsBelow(a: nat, b: nat, k: nat)
    requires a < Pow2(k) && b < Pow2(k)
    ensures Xor(a, b) < Pow2(k)
  {
    if a > 0 && b > 0 {
      XorIsBelow(a / 2, b / 2, k - 1);
    }
  }

  lemma {:induction false} XorSelf(a: nat)
    ensures Xor(a, a) == 0
  {
    if a != 0 {
      XorSelf(a / 2);
    }
  }

  /** A word AND all ones, and a word AND its complement. */
  lemma {:induction false} AndOnes(a: nat, k: nat)
    requires a < Pow2(k)
    ensures And(a, Pow2(k) - 1) == a && And(a, Pow2(k) - 1 - a) == 0
  {
    if k > 0 {
      AndOnes(a / 2, k - 1);
      AndOnesHalf(a, Pow2(k - 1));
    }
  }

  lemma {:induction false} AndOnesHalf(a: nat, p: nat)
    requires a < 2 * p && And(a / 2, p - 1) == a / 2 && And(a / 2, p - 1 - a / 2) == 0
    ensures And(a, 2 * p - 1) == a && And(a, 2 * p - 1 - a) == 0
  {
    AndWith(a, 2 * p - 1, p - 1, 1);
    AndWith(a, 2 * p - 1 - a, p - 1 - a / 2, 1 - a % 2);
  }

  lemma {:induction false} AndWith(a: nat, b: nat, half: nat, bit: nat)
    requires bit < 2 && b == 2 * half + bit
    ensures And(a, b) == (if a % 2 == 1 && bit == 1 then 1 else 0) + 2 * And(a / 2, half)
  {
    assert b / 2 == half && b % 2 == bit;
    AndHalves(a, b);
  }

  lemma WrapSum(a: int, b: int, bits: nat)
    ensures Wrap(a + b, bits) == Wrap(a + Wrap(b, bits), bits)
    ensures Wrap(a + b, bits) == Wrap(Wrap(a, bits) + b, bits)
  {
    var m := Pow2(bits);
    ModAddMultiple(a + b % m, b / m, m);
    ModAddMultiple(a % m + b, a / m, m);
    assert a + b % m + b / m * m == a + b;
    assert a % m + b + a / m * m == a + b;
  }

  lemma WrapMultiple(a: int, q: int, bits: nat)
    ensures Wrap(a + q * Pow2(bits), bits) == Wrap(a, bits)
  {
    ModAddMultiple(a, q, Pow2(bits));
  }

  lemma ModAddMultiple(a: int, q: int, m: int)
    requires m > 0
    ensures (a + q * m) % m == a % m
  {
    var d := a / m;
    assert a == d * m + a % m;
    assert a + q * m == (d + q) * m + a % m by {
      assert (d + q) * m == d * m + q * m;
    }
    ModUnique(a + q * m, d + q, a % m, m);
  }

  lemma ModUnique(x: int, d: int, r: int, m: int)
    requires m > 0 && 0 <= r < m && x == d * m + r
    ensures x % m == r && x / m == d
  {
    var e, s := x / m, x % m;
    Distribute(d, -e, m);
    Distribute(e, -d, m);
    if d > e {
      AtLeastOnce(d - e, m);
    } else if e > d {
      AtLeastOnce(e - d, m);
    }
  }

  lemma SplitProduct(e: int, q: int, r: int, p: int)
    ensures (e * q + r) * p == e * (q * p) + r * p
  {
    assert (e * q) * p == e * (q * p);
  }

  lemma BelowProduct(s: int, r: int, p: int, q: int)
    requires 0 <= s < p && 0 <= r < q
    ensures 0 <= r * p && s + r * p < q * p
  {
    assert (q - 1 - r) * p >= 0;
    assert (q - 1 - r) * p == q * p - p - r * p;
  }

  lemma Distribute(a: int, b: int, m: int)
    ensures (a + b) * m == a * m + b * m && (-b) * m == -(b * m)
  {
  }

  lemma AtLeastOnce(k: int, m: int)
    requires k >= 1 && m > 0
    ensures k * m >= m
  {
  }
}
