/** The 32-bit FNV-style hash used for decision ids and ledger links. */
module FnvHash {
  import opened Bits
  import opened Hex

  /** A JavaScript string is a sequence of UTF-16 code units. */
  type CodeUnit = u: nat | u < 0x1_0000
  type JsString = seq<CodeUnit>

  const WRAP := 0x1_0000_0000
  const OFFSET_BASIS := 0x811c9dc5
  const PRIME := 0x01000193
  /** The inverse of PRIME modulo 2^32. */
  const PRIME_INVERSE := 0x359c449b

  function ToUint32(x: int): nat {
    x % WRAP
  }

  function ToInt32(x: int): (i: int)
    ensures -0x8000_0000 <= i < 0x8000_0000 && (i - x) % 0x1_0000_0000 == 0
  {
    var u := ToUint32(x);
    if u < 0x8000_0000 then u else u - WRAP
  }

  /** `a ^ b` on doubles holding integers. */
  function Xor32(a: int, b: int): int {
    ToInt32(Xor(ToUint32(a), ToUint32(b)))
  }

  /** `Math.imul(a, b)`. */
  function Imul(a: int, b: int): int {
    ToInt32(ToUint32(a) * ToUint32(b))
  }

  /** One round in unsigned arithmetic modulo 2^32. */
  function Mix(h: nat, c: CodeUnit): nat {
    (Xor(h, c) * PRIME) % WRAP
  }

  function Digest(input: JsString): (h: nat)
    ensures h < WRAP
  {
    if input == [] then OFFSET_BASIS
    else Mix(Digest(input[..|input| - 1]), input[|input| - 1])
  }

  /** What `shortHash` returns: eight hex digits of the unsigned digest. */
  function ShortHashOf(input: JsString): (s: string)
    ensures |s| == 8 && IsHex(s)
  {
    Fixed(Digest(input), 8)
  }

  /** The offset basis, the prime and the width of the hash, round by round. */
  lemma DigestRounds(input: JsString, c: CodeUnit)
    ensures Digest([]) == 0x811c_9dc5
    ensures Digest(input + [c]) == (Xor(Digest(input), c) * 0x0100_0193) % 0x1_0000_0000
  {
    assert (input + [c])[..|input|] == input;
  }

  method ShortHash(input: JsString) returns (s: string)
    ensures s == ShortHashOf(input)
  {
    var h: int := OFFSET_BASIS;
    for i := 0 to |input|
      invariant ToUint32(h) == Digest(input[..i])
    {
      SignedRound(h, input[i]);
      assert input[..i + 1][..i] == input[..i];
      h := Xor32(h, input[i]);
      h := Imul(h, PRIME);
    }
    assert input[..|input|] == input;
    PaddedIsFixed(ToUint32(h), 8);
    s := PadStart(ToHex(ToUint32(h)), 8);
  }

  /** A round of the signed loop is a round of unsigned arithmetic modulo 2^32. */
  lemma SignedRound(h: int, c: CodeUnit)
    ensures ToUint32(Imul(Xor32(h, c), PRIME)) == Mix(ToUint32(h), c)
  {
    Pow2Of32();
    XorBound(ToUint32(h), c, 32);
    assert ToUint32(c) == c;
    hide Xor, Pow2;
    var x := Xor(ToUint32(h), c);
    Signed(x);
    assert ToUint32(Xor32(h, c)) == x;
    Signed(x * PRIME);
  }

  /** Reading a value as signed and back keeps it modulo 2^32. */
  lemma Signed(x: nat)
    ensures ToUint32(ToInt32(x)) == x % WRAP
    ensures x < WRAP ==> ToUint32(ToInt32(x)) == x
  {
  }

  lemma MultiplierInvertible(x: nat)
    requires x < WRAP
    ensures (x * PRIME % WRAP) * PRIME_INVERSE % WRAP == x
  {
    var q := x * PRIME / WRAP;
    var k := PRIME * PRIME_INVERSE / WRAP;
    assert PRIME * PRIME_INVERSE == 1 + k * WRAP;
    assert (x * PRIME % WRAP) * PRIME_INVERSE == x + (x * k - q * PRIME_INVERSE) * WRAP;
    ModUnique((x * PRIME % WRAP) * PRIME_INVERSE, WRAP, x * k - q * PRIME_INVERSE, x);
  }

  /** Neither component of a round loses information. */
  lemma MixInjective(g: nat, h: nat, c: CodeUnit, d: CodeUnit)
    requires g < WRAP && h < WRAP && Mix(g, c) == Mix(h, d)
    ensures g == h <==> c == d
  {
    Pow2Of32();
    XorBound(g, c, 32);
    XorBound(h, d, 32);
    MultiplierInvertible(Xor(g, c));
    MultiplierInvertible(Xor(h, d));
    XorInvolutive(g, c);
    XorInvolutive(h, d);
    XorCommutes(g, c);
    XorCommutes(h, d);
    XorInvolutive(c, g);
    XorInvolutive(d, h);
  }

  /** A common suffix neither creates nor removes a collision. */
  lemma {:induction false} SuffixCancels(p: JsString, q: JsString, suffix: JsString)
    ensures Digest(p + suffix) == Digest(q + suffix) <==> Digest(p) == Digest(q)
  {
    if suffix == [] {
      assert p + suffix == p && q + suffix == q;
    } else {
      var n := |suffix| - 1;
      var init, c := suffix[..n], suffix[n];
      assert (p + suffix)[..|p + suffix| - 1] == p + init;
      assert (q + suffix)[..|q + suffix| - 1] == q + init;
      SuffixCancels(p, q, init);
      if Digest(p + suffix) == Digest(q + suffix) {
        MixInjective(Digest(p + init), Digest(q + init), c, c);
      }
    }
  }

  /** Changing exactly one code unit always changes the printed hash. */
  lemma NoSingleUnitCollision(a: JsString, b: JsString, k: nat)
    requires |a| == |b| && k < |a|
    requires a[k] != b[k] && forall i :: 0 <= i < |a| && i != k ==> a[i] == b[i]
    ensures ShortHashOf(a) != ShortHashOf(b)
  {
    var p, q := a[..k + 1], b[..k + 1];
    assert p[..k] == q[..k];
    assert p[k] == a[k] && q[k] == b[k];
    if Digest(p) == Digest(q) {
      MixInjective(Digest(p[..k]), Digest(q[..k]), p[k], q[k]);
    }
    assert a == p + a[k + 1..] && b == q + a[k + 1..];
    SuffixCancels(p, q, a[k + 1..]);
    assert Pow16(8) == WRAP;
    ParseFixed(Digest(a), 8);
    ParseFixed(Digest(b), 8);
  }
}
