/** Bitwise operators on unbounded naturals, as JavaScript's BigInt operators compute them. */
module Bits {

  function Pow2(k: nat): (p: nat)
    ensures p > 0
  {
    if k == 0 then 1 else 2 * Pow2(k - 1)
  }

  function Or(a: nat, b: nat): nat {
    if a == 0 then b
    else if b == 0 then a
    else (if a % 2 == 1 || b % 2 == 1 then 1 else 0) + 2 * Or(a / 2, b / 2)
  }

  function And(a: nat, b: nat): nat {
    if a == 0 || b == 0 then 0
    else (if a % 2 == 1 && b % 2 == 1 then 1 else 0) + 2 * And(a / 2, b / 2)
  }

  function Xor(a: nat, b: nat): nat {
    if a == 0 then b
    else if b == 0 then a
    else (if a % 2 != b % 2 then 1 else 0) + 2 * Xor(a / 2, b / 2)
  }

  lemma {:induction false} Pow2Add(j: nat, k: nat)
    ensures Pow2(j + k) == Pow2(j) * Pow2(k)
  {
    if j > 0 {
      Pow2Add(j - 1, k);
    }
  }

  lemma Pow2Of32()
    ensures Pow2(16) == 0x1_0000 && Pow2(32) == 0x1_0000_0000
  {
    assert Pow2(8) == 0x100;
    Pow2Add(8, 8);
    Pow2Add(16, 16);
  }

  /** `v << k`. */
  function Shl(v: nat, k: nat): (r: nat)
    ensures v <= r
  {
    if k == 0 then v else 2 * Shl(v, k - 1)
  }

  lemma {:induction false} ShlAdd(v: nat, j: nat, k: nat)
    ensures Shl(Shl(v, j), k) == Shl(v, j + k)
  {
    if k > 0 {
      ShlAdd(v, j, k - 1);
    }
  }

  lemma {:induction false} ShlSum(v: nat, w: nat, k: nat)
    ensures Shl(v + w, k) == Shl(v, k) + Shl(w, k)
  {
    if k > 0 {
      ShlSum(v, w, k - 1);
    }
  }

  lemma {:induction false} ShlBelow(v: nat, w: nat, k: nat)
    requires v < Pow2(w)
    ensures Shl(v, k) < Pow2(w + k)
  {
    if k > 0 {
      ShlBelow(v, w, k - 1);
    }
  }

  /** Dividing by 2^k reads back the two parts of a shifted value plus a smaller one. */
  lemma {:induction false} ShlParts(v: nat, lo: nat, k: nat)
    requires lo < Pow2(k)
    ensures (Shl(v, k) + lo) / Pow2(k) == v && (Shl(v, k) + lo) % Pow2(k) == lo
  {
    ShlIsProduct(v, k);
    ModUnique(Shl(v, k) + lo, Pow2(k), v, lo);
  }

  lemma {:induction false} ShlIsProduct(v: nat, k: nat)
    ensures Shl(v, k) == v * Pow2(k)
  {
    if k > 0 {
      ShlIsProduct(v, k - 1);
    }
  }

  /** Disjoint fields: the OR of a shifted value and a value below the shift is their sum. */
  lemma {:induction false} OrDisjoint(hi: nat, lo: nat, k: nat)
    requires lo < Pow2(k)
    ensures Or(Shl(hi, k), lo) == Shl(hi, k) + lo
  {
    if k > 0 {
      OrDisjoint(hi, lo / 2, k - 1);
    }
  }

  /** ORing a w-bit field into the w places above k extends the value held above those places. */
  lemma OrField(acc: nat, field: nat, w: nat, k: nat)
    requires field < Pow2(w)
    ensures Or(Shl(acc, w + k), Shl(field, k)) == Shl(Shl(acc, w) + field, k)
    ensures Shl(Shl(acc, w) + field, k) == Shl(acc, w + k) + Shl(field, k)
  {
    ShlBelow(field, w, k);
    OrDisjoint(acc, Shl(field, k), w + k);
    ShlAdd(acc, w, k);
    ShlSum(Shl(acc, w), field, k);
  }

  /** The k low bits of x. */
  function Low(x: nat, k: nat): (r: nat)
    ensures r < Pow2(k)
  {
    if k == 0 then 0 else x % 2 + 2 * Low(x / 2, k - 1)
  }

  /** Masking with k one-bits keeps the k low bits. */
  lemma {:induction false} AndMask(x: nat, mask: nat, k: nat)
    requires mask == Pow2(k) - 1
    ensures And(x, mask) == Low(x, k)
  {
    if k > 0 {
      AndMask(x / 2, mask / 2, k - 1);
      if x == 0 {
        LowZero(k);
      }
    }
  }

  lemma {:induction false} LowZero(k: nat)
    ensures Low(0, k) == 0
  {
    if k > 0 {
      LowZero(k - 1);
    }
  }

  /** The k low bits are the remainder modulo 2^k. */
  lemma {:induction false} LowIsMod(x: nat, k: nat)
    ensures Low(x, k) == x % Pow2(k)
  {
    if k > 0 {
      LowIsMod(x / 2, k - 1);
      ModTwice(x, Pow2(k - 1));
    }
  }

  lemma ModTwice(x: nat, p: nat)
    requires p > 0
    ensures x % (2 * p) == x % 2 + 2 * ((x / 2) % p)
  {
    var h := x / 2;
    var q := h / p;
    assert x == 2 * p * q + (x % 2 + 2 * (h % p));
    ModUnique(x, 2 * p, q, x % 2 + 2 * (h % p));
  }

  lemma ModUnique(x: int, m: int, q: int, r: int)
    requires 0 <= r < m && x == m * q + r
    ensures x % m == r && x / m == q
  {
    var d := x / m - q;
    assert m * d == r - x % m;
    MultipleGrows(m, d);
  }

  lemma MultipleGrows(m: int, d: int)
    requires m > 0
    ensures d >= 1 ==> m * d >= m
    ensures d <= -1 ==> m * d <= -m
  {
  }

  lemma {:induction false} XorInvolutive(a: nat, b: nat)
    ensures Xor(Xor(a, b), b) == a
  {
    if a == 0 {
      XorSelf(b);
    } else if b > 0 {
      var x := Xor(a, b);
      XorInvolutive(a / 2, b / 2);
      assert x / 2 == Xor(a / 2, b / 2);
      assert x == 0 ==> a / 2 == b / 2;
    }
  }

  lemma {:induction false} XorSelf(b: nat)
    ensures Xor(b, b) == 0
  {
    if b > 0 {
      XorSelf(b / 2);
    }
  }

  lemma {:induction false} XorBound(a: nat, b: nat, k: nat)
    requires a < Pow2(k) && b < Pow2(k)
    ensures Xor(a, b) < Pow2(k)
  {
    if a > 0 && b > 0 && k > 0 {
      XorBound(a / 2, b / 2, k - 1);
    }
  }

  lemma {:induction false} XorCommutes(a: nat, b: nat)
    ensures Xor(a, b) == Xor(b, a)
  {
    if a > 0 && b > 0 {
      XorCommutes(a / 2, b / 2);
    }
  }
}
