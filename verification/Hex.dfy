/** Lower-case hexadecimal printing: `toString(16)`, `padStart`, and the inverse reading. */
module Hex {

  function Digit(d: nat): (c: char)
    requires d < 16
  {
    if d < 10 then '0' + d as char else 'a' + (d - 10) as char
  }

  function DigitValue(c: char): (d: nat) {
    if '0' <= c <= '9' then (c - '0') as nat
    else if 'a' <= c <= 'f' then (c - 'a') as nat + 10
    else 0
  }

  predicate IsHex(s: string) {
    forall i :: 0 <= i < |s| ==> '0' <= s[i] <= '9' || 'a' <= s[i] <= 'f'
  }

  /** A SHA-256 digest in print. */
  predicate IsSha256(s: string) {
    |s| == 64 && IsHex(s)
  }

  function Pow16(n: nat): (p: nat)
    ensures p > 0
  {
    if n == 0 then 1 else 16 * Pow16(n - 1)
  }

  /** `v.toString(16)`: no leading zero, except for zero itself. */
  function ToHex(v: nat): string {
    if v < 16 then [Digit(v)] else ToHex(v / 16) + [Digit(v % 16)]
  }

  /** `s.padStart(n, "0")`. */
  function PadStart(s: string, n: nat): string {
    if |s| >= n then s else seq(n - |s|, _ => '0') + s
  }

  /** The number a hex string denotes. */
  function Parse(s: string): nat {
    if s == [] then 0 else 16 * Parse(s[..|s| - 1]) + DigitValue(s[|s| - 1])
  }

  /** Exactly n digits of v, most significant first. */
  function Fixed(v: nat, n: nat): (s: string)
    ensures |s| == n && IsHex(s)
  {
    if n == 0 then [] else Fixed(v / 16, n - 1) + [Digit(v % 16)]
  }

  /** Padding to n digits prints exactly the n-digit form when the value fits, and overflows otherwise. */
  lemma {:induction false} PaddedIsFixed(v: nat, n: nat)
    requires n > 0
    ensures v < Pow16(n) ==> |ToHex(v)| <= n && PadStart(ToHex(v), n) == Fixed(v, n)
    ensures v >= Pow16(n) ==> |PadStart(ToHex(v), n)| > n
  {
    if v < 16 {
      FixedZero(n - 1);
      assert Fixed(v, n) == Fixed(0, n - 1) + [Digit(v)];
    } else if n == 1 {
    } else {
      assert v < Pow16(n) <==> v / 16 < Pow16(n - 1);
      PaddedIsFixed(v / 16, n - 1);
      assert ToHex(v) == ToHex(v / 16) + [Digit(v % 16)];
      assert Fixed(v, n) == Fixed(v / 16, n - 1) + [Digit(v % 16)];
      hide Pow16, ToHex, Fixed, Digit;
      PadLast(ToHex(v / 16), Digit(v % 16), n);
    }
  }

  lemma PadLast(s: string, c: char, n: nat)
    requires n > 0
    ensures PadStart(s + [c], n) == PadStart(s, n - 1) + [c]
  {
  }

  lemma {:induction false} FixedZero(n: nat)
    ensures Fixed(0, n) == seq(n, _ => '0')
  {
    if n > 0 {
      FixedZero(n - 1);
    }
  }

  lemma {:induction false} ParseFixed(v: nat, n: nat)
    requires v < Pow16(n)
    ensures Parse(Fixed(v, n)) == v
  {
    if n > 0 {
      var init, d := Fixed(v / 16, n - 1), v % 16;
      ParseFixed(v / 16, n - 1);
      assert Fixed(v, n) == init + [Digit(d)];
      ParseAppend(init, Digit(d));
      DigitRoundTrip(d);
      hide *;
    }
  }

  lemma ParseAppend(s: string, c: char)
    ensures Parse(s + [c]) == 16 * Parse(s) + DigitValue(c)
  {
    assert (s + [c])[..|s|] == s;
  }

  lemma DigitRoundTrip(d: nat)
    requires d < 16
    ensures DigitValue(Digit(d)) == d
  {
  }

  /** v shifted left by n hex digits. */
  function Shift(v: nat, n: nat): nat {
    if n == 0 then v else 16 * Shift(v, n - 1)
  }

  /** A value built from a high and a low field prints as the two fields side by side. */
  lemma {:induction false} FixedSplit(hi: nat, lo: nat, m: nat, n: nat)
    requires lo < Pow16(n)
    ensures Fixed(Shift(hi, n) + lo, m + n) == Fixed(hi, m) + Fixed(lo, n)
  {
    if n > 0 {
      FixedSplit(hi, lo / 16, m, n - 1);
      assert (Shift(hi, n) + lo) / 16 == Shift(hi, n - 1) + lo / 16;
    }
  }

  /** Of two different n-digit numbers, the smaller differs first at a smaller digit. */
  lemma {:induction false} FixedOrder(v: nat, w: nat, n: nat) returns (k: nat)
    requires v < w < Pow16(n)
    ensures k < n && Fixed(v, n)[..k] == Fixed(w, n)[..k] && Fixed(v, n)[k] < Fixed(w, n)[k]
  {
    var s, t := Fixed(v, n), Fixed(w, n);
    assert s[..n - 1] == Fixed(v / 16, n - 1) && t[..n - 1] == Fixed(w / 16, n - 1);
    if v / 16 == w / 16 {
      k := n - 1;
    } else {
      k := FixedOrder(v / 16, w / 16, n - 1);
      assert s[..k] == s[..n - 1][..k] && t[..k] == t[..n - 1][..k];
    }
  }
}
