/** UUID version 7 construction (section 5.7 of RFC 9562) from a clock reading and ten random bytes. */
module UuidV7 {
  import opened Bits
  import opened Hex

  type Byte = b: nat | b < 0x100

  const TIMESTAMP_LIMIT := 0x1_0000_0000_0000

  function RandA(bytes: seq<Byte>): nat
    requires |bytes| == 10
  {
    And(Or(Shl(bytes[0], 8), bytes[1]), 0xfff)
  }

  /** The OR of the bytes from `from` on, each shifted to its place. */
  function OrBytes(acc: nat, bytes: seq<Byte>): nat
    decreases |bytes|
  {
    if bytes == [] then acc
    else OrBytes(Or(acc, Shl(bytes[0], 8 * (|bytes| - 1))), bytes[1..])
  }

  function RandB(bytes: seq<Byte>): nat
    requires |bytes| == 10
  {
    OrBytes(Shl(bytes[2], 56), bytes[3..])
  }

  /** The BigInt expression, with w the width of the rand_b field and every shift counted from it. */
  function Assemble(timestamp: nat, randA: nat, randB: nat, w: nat): nat {
    Or(Or(Or(Or(Shl(timestamp, w + 18), Shl(7, w + 14)), Shl(randA, w + 2)), Shl(2, w)),
       And(randB, Shl(1, w) - 1))
  }

  /** Shifts 80, 76, 64 and 62. */
  function Value(timestamp: nat, bytes: seq<Byte>): nat
    requires |bytes| == 10
  {
    Assemble(timestamp, RandA(bytes), RandB(bytes), 62)
  }

  function Hyphenate(hex: string): string
    requires |hex| >= 20
  {
    hex[..8] + "-" + hex[8..12] + "-" + hex[12..16] + "-" + hex[16..20] + "-" + hex[20..]
  }

  function Create(timestamp: nat, bytes: seq<Byte>): string
    requires |bytes| == 10
  {
    Hyphenate(PadStart(ToHex(Value(timestamp, bytes)), 32))
  }

  // Reading the fields back from the printed form.

  function ReadTimestamp(s: string): nat
    requires |s| == 36
  {
    Parse(s[..8] + s[9..13])
  }

  function ReadVersion(s: string): nat
    requires |s| == 36
  {
    DigitValue(s[14])
  }

  function ReadRandA(s: string): nat
    requires |s| == 36
  {
    Parse(s[15..18])
  }

  /** The last 64 bits: two variant bits followed by the 62 random ones. */
  function ReadLow(s: string): nat
    requires |s| == 36
  {
    Parse(s[19..23] + s[24..])
  }

  /** The number a byte string denotes, most significant byte first. */
  function BigEndian(bytes: seq<Byte>): nat {
    if bytes == [] then 0 else 0x100 * BigEndian(bytes[..|bytes| - 1]) + bytes[|bytes| - 1]
  }

  lemma {:induction false} ShiftIsShl(v: nat, n: nat)
    ensures Shift(v, n) == Shl(v, 4 * n)
  {
    if n > 0 {
      ShiftIsShl(v, n - 1);
      assert Shl(v, 4 * n) == 2 * Shl(v, 4 * n - 1);
      assert Shl(v, 4 * n - 1) == 2 * Shl(v, 4 * n - 2);
      assert Shl(v, 4 * n - 2) == 2 * Shl(v, 4 * n - 3);
      assert Shl(v, 4 * n - 3) == 2 * Shl(v, 4 * n - 4);
    }
  }

  lemma {:induction false} Pow16IsPow2(n: nat)
    ensures Pow16(n) == Pow2(4 * n)
  {
    if n > 0 {
      Pow16IsPow2(n - 1);
      Pow2Add(4, 4 * n - 4);
      assert Pow2(4) == 16;
    }
  }

  /** ORing byte after byte below the accumulated ones reads them as one big-endian number. */
  lemma {:induction false} OrBytesIsBigEndian(high: nat, bytes: seq<Byte>)
    ensures OrBytes(Shl(high, 8 * |bytes|), bytes) == Shl(high, 8 * |bytes|) + BigEndian(bytes)
    decreases |bytes|
  {
    if bytes != [] {
      var k := 8 * (|bytes| - 1);
      assert Pow2(8) == 0x100;
      OrField(high, bytes[0], 8, k);
      OrBytesIsBigEndian(Shl(high, 8) + bytes[0], bytes[1..]);
      BigEndianHead(bytes);
    }
  }

  lemma {:induction false} BigEndianHead(bytes: seq<Byte>)
    requires bytes != []
    ensures BigEndian(bytes) == Shl(bytes[0], 8 * (|bytes| - 1)) + BigEndian(bytes[1..])
    decreases |bytes|
  {
    var n := |bytes| - 1;
    if n > 0 {
      var init := bytes[..n];
      BigEndianHead(init);
      assert init[1..] == bytes[1..][..n - 1];
      ShlByte(bytes[0], 8 * (n - 1));
      hide Shl;
    }
  }

  lemma ShlByte(v: nat, k: nat)
    ensures Shl(v, k + 8) == 0x100 * Shl(v, k)
  {
    assert Pow2(8) == 0x100;
    hide Shl, Pow2;
    ShlAdd(v, k, 8);
    ShlIsProduct(Shl(v, k), 8);
  }

  /** The twelve random bits above the variant: two bytes kept to 12 bits. */
  lemma RandAValue(bytes: seq<Byte>)
    requires |bytes| == 10
    ensures RandA(bytes) == Low(BigEndian(bytes[..2]), 12)
  {
    assert Pow2(8) == 0x100 && Pow2(12) == 0x1000;
    OrDisjoint(bytes[0], bytes[1], 8);
    BigEndianHead(bytes[..2]);
    assert bytes[..2][1..] == [bytes[1]] && BigEndian([bytes[1]]) == bytes[1];
    AndMask(Or(Shl(bytes[0], 8), bytes[1]), 0xfff, 12);
  }

  /** The random bits below the variant: eight bytes kept to w bits. */
  lemma RandBValue(bytes: seq<Byte>, w: nat)
    requires |bytes| == 10
    ensures And(RandB(bytes), Shl(1, w) - 1) == Low(BigEndian(bytes[2..]), w)
  {
    OrBytesIsBigEndian(bytes[2], bytes[3..]);
    BigEndianHead(bytes[2..]);
    assert bytes[2..][1..] == bytes[3..];
    ShlOne(w);
    AndMask(RandB(bytes), Shl(1, w) - 1, w);
  }

  lemma {:induction false} ShlOne(w: nat)
    ensures Shl(1, w) == Pow2(w)
  {
    if w > 0 {
      ShlOne(w - 1);
    }
  }

  /** Fields ORed in place, one below the other: the OR is the sum, and a nesting of shifts. */
  lemma OrFields(timestamp: nat, version: nat, a: nat, variant: nat, b: nat, w: nat)
    requires version < Pow2(4) && a < Pow2(12) && variant < Pow2(2) && b < Pow2(w)
    ensures Or(Or(Or(Or(Shl(timestamp, w + 18), Shl(version, w + 14)), Shl(a, w + 2)), Shl(variant, w)), b)
         == Shl(timestamp, w + 18) + Shl(version, w + 14) + Shl(a, w + 2) + Shl(variant, w) + b
    ensures Shl(timestamp, w + 18) + Shl(version, w + 14) + Shl(a, w + 2)
         == Shl(Shl(Shl(timestamp, 4) + version, 12) + a, w + 2)
  {
    hide *;
    OrField(timestamp, version, 4, w + 14);
    var h1 := Shl(timestamp, 4) + version;
    OrField(h1, a, 12, w + 2);
    var h2 := Shl(h1, 12) + a;
    OrField(h2, variant, 2, w);
    OrDisjoint(Shl(h2, 2) + variant, b, w);
  }

  /** The OR of the five fields equals their sum, whatever the timestamp. */
  lemma OrIsSum(timestamp: nat, bytes: seq<Byte>, w: nat)
    requires |bytes| == 10
    ensures RandA(bytes) == Low(BigEndian(bytes[..2]), 12)
    ensures Assemble(timestamp, RandA(bytes), RandB(bytes), w)
         == Shl(timestamp, w + 18) + Shl(7, w + 14) + Shl(RandA(bytes), w + 2) + LowBits(bytes, w)
  {
    RandAValue(bytes);
    RandBValue(bytes, w);
    assert Pow2(2) == 4 && Pow2(4) == 16;
    hide Or, Shl, Pow2, Low, BigEndian, OrBytes, RandA, RandB, And;
    OrFields(timestamp, 7, RandA(bytes), 2, Low(BigEndian(bytes[2..]), w), w);
  }

  /** The last 64 bits: the variant 10 followed by w random bits. */
  function LowBits(bytes: seq<Byte>, w: nat): nat
    requires |bytes| == 10
  {
    Shl(2, w) + Low(BigEndian(bytes[2..]), w)
  }

  lemma {:induction false} ShlTwo(w: nat)
    ensures Shl(2, w) == 2 * Pow2(w)
  {
    if w > 0 {
      ShlTwo(w - 1);
    }
  }

  lemma {:induction false} ShiftBelow(hi: nat, lo: nat, m: nat, n: nat)
    requires lo < Pow16(n)
    ensures Shift(hi, n) + lo < Pow16(m + n) <==> hi < Pow16(m)
  {
    if n > 0 {
      ShiftBelow(hi, lo / 16, m, n - 1);
    }
  }

  /** Fields of 12, 1, 3 and 16 hex digits, printed with at least 32 digits. */
  lemma FieldsPrint(timestamp: nat, version: nat, a: nat, low: nat)
    requires version < Pow16(1) && a < Pow16(3) && low < Pow16(16)
    ensures var hex := PadStart(ToHex(Shift(Shift(Shift(timestamp, 1) + version, 3) + a, 16) + low), 32);
      if timestamp < Pow16(12) then
        hex == Fixed(timestamp, 12) + Fixed(version, 1) + Fixed(a, 3) + Fixed(low, 16)
      else
        |hex| > 32
  {
    hide *;
    var h1 := Shift(timestamp, 1) + version;
    var h2 := Shift(h1, 3) + a;
    FixedSplit(timestamp, version, 12, 1);
    FixedSplit(h1, a, 13, 3);
    FixedSplit(h2, low, 16, 16);
    ShiftBelow(timestamp, version, 12, 1);
    ShiftBelow(h1, a, 13, 3);
    ShiftBelow(h2, low, 16, 16);
    PaddedIsFixed(Shift(h2, 16) + low, 32);
  }

  lemma LowBitsFit(bytes: seq<Byte>, w: nat)
    requires |bytes| == 10 && w + 2 == 4 * 16
    ensures LowBits(bytes, w) < Pow16(16)
  {
    assert Pow2(2) == 4;
    hide Shl, Low, BigEndian, Pow16;
    ShlTwo(w);
    Pow2Add(2, w);
    Pow16IsPow2(16);
  }

  lemma HexPowers()
    ensures Pow16(1) == 16 == Pow2(4) && Pow16(3) == 0x1000 == Pow2(12) && Pow16(12) == TIMESTAMP_LIMIT
  {
  }

  /** The hex digits, field by field: 12 of timestamp, the version, 3 of rand_a, 16 of variant and rand_b. */
  lemma HexLayout(timestamp: nat, bytes: seq<Byte>)
    requires |bytes| == 10
    ensures var hex := PadStart(ToHex(Value(timestamp, bytes)), 32);
      if timestamp < TIMESTAMP_LIMIT then
        hex == Fixed(timestamp, 12) + Fixed(7, 1) + Fixed(Low(BigEndian(bytes[..2]), 12), 3)
               + Fixed(LowBits(bytes, 62), 16)
      else
        |hex| > 32
  {
    hide Assemble, RandA, RandB, BigEndian, Or, And, Shl, Pow2, Low, ToHex, PadStart, Parse, Fixed, Pow16, Shift;
    var a := Low(BigEndian(bytes[..2]), 12);
    HexPowers();
    LowBitsFit(bytes, 62);
    OrIsSum(timestamp, bytes, 62);
    OrFields(timestamp, 7, a, 0, 0, 62);
    ShiftIsShl(timestamp, 1);
    ShiftIsShl(Shift(timestamp, 1) + 7, 3);
    ShiftIsShl(Shift(Shift(timestamp, 1) + 7, 3) + a, 16);
    FieldsPrint(timestamp, 7, a, LowBits(bytes, 62));
  }

  /** Layout and read-back for every timestamp of 48 bits: version 7, variant 10, and the random fields. */
  lemma Layout(timestamp: nat, bytes: seq<Byte>)
    requires |bytes| == 10 && timestamp < TIMESTAMP_LIMIT
    ensures var s := Create(timestamp, bytes);
      && |s| == 36 && s[8] == s[13] == s[18] == s[23] == '-'
      && ReadTimestamp(s) == timestamp
      && ReadVersion(s) == 7
      && ReadRandA(s) == BigEndian(bytes[..2]) % Pow2(12)
      && ReadLow(s) / Pow2(62) == 2
      && ReadLow(s) % Pow2(62) == BigEndian(bytes[2..]) % Pow2(62)
  {
    hide *;
    HexPowers();
    LowBitsFit(bytes, 62);
    PrintedFields(timestamp, bytes);
    var a, low := Low(BigEndian(bytes[..2]), 12), LowBits(bytes, 62);
    ReadBack(Fixed(timestamp, 12), Fixed(7, 1), Fixed(a, 3), Fixed(low, 16));
    ParseFixed(timestamp, 12);
    ParseFixed(7, 1);
    ParseFixed(a, 3);
    ParseFixed(low, 16);
    LowBitsParts(bytes, 62);
    LowIsMod(BigEndian(bytes[..2]), 12);
    LowIsMod(BigEndian(bytes[2..]), 62);
  }

  lemma PrintedFields(timestamp: nat, bytes: seq<Byte>)
    requires |bytes| == 10 && timestamp < TIMESTAMP_LIMIT
    ensures Create(timestamp, bytes)
         == Hyphenate(Fixed(timestamp, 12) + Fixed(7, 1) + Fixed(Low(BigEndian(bytes[..2]), 12), 3)
                      + Fixed(LowBits(bytes, 62), 16))
  {
    hide Value, LowBits, BigEndian, Low, Fixed, PadStart, ToHex;
    HexLayout(timestamp, bytes);
  }

  lemma ReadBack(time: string, version: string, a: string, low: string)
    requires |time| == 12 && |version| == 1 && |a| == 3 && |low| == 16
    ensures var s := Hyphenate(time + version + a + low);
      && |s| == 36 && s[8] == s[13] == s[18] == s[23] == '-'
      && ReadTimestamp(s) == Parse(time) && ReadVersion(s) == Parse(version)
      && ReadRandA(s) == Parse(a) && ReadLow(s) == Parse(low)
  {
    var hex := time + version + a + low;
    var s := Hyphenate(hex);
    assert hex[..8] == time[..8] && hex[8..12] == time[8..12] && hex[12..16] == version + a;
    assert hex[16..20] == low[..4] && hex[20..] == low[4..];
    assert s == time[..8] + "-" + time[8..12] + "-" + (version + a) + "-" + low[..4] + "-" + low[4..];
    assert s[..8] == time[..8] && s[9..13] == time[8..12] && time == time[..8] + time[8..12];
    assert s[14..15] == version && s[15..18] == a;
    assert Parse(version) == DigitValue(version[0]);
    assert s[19..23] == low[..4] && s[24..] == low[4..] && low == low[..4] + low[4..];
  }

  lemma LowBitsParts(bytes: seq<Byte>, w: nat)
    requires |bytes| == 10
    ensures LowBits(bytes, w) / Pow2(w) == 2 && LowBits(bytes, w) % Pow2(w) == Low(BigEndian(bytes[2..]), w)
  {
    hide BigEndian, Shl, Pow2, Low;
    ShlParts(2, Low(BigEndian(bytes[2..]), w), w);
  }

  /** The printed form has the 36 characters of a UUID exactly for 48-bit timestamps. */
  lemma LengthExact(timestamp: nat, bytes: seq<Byte>)
    requires |bytes| == 10
    ensures |Create(timestamp, bytes)| == 36 <==> timestamp < TIMESTAMP_LIMIT
  {
    HexLayout(timestamp, bytes);
  }

  /** A smaller timestamp gives a lexicographically smaller string, whatever the random bytes. */
  lemma TimeOrdered(t1: nat, bytes1: seq<Byte>, t2: nat, bytes2: seq<Byte>)
    requires |bytes1| == |bytes2| == 10 && t1 < t2 < TIMESTAMP_LIMIT
    ensures var s1, s2 := Create(t1, bytes1), Create(t2, bytes2);
      exists k :: 0 <= k < |s1| && k < |s2| && s1[..k] == s2[..k] && s1[k] < s2[k]
  {
    HexPowers();
    hide Create, Fixed, Pow16;
    var f1, f2 := Fixed(t1, 12), Fixed(t2, 12);
    var s1, s2 := Create(t1, bytes1), Create(t2, bytes2);
    TimestampDigits(t1, bytes1);
    TimestampDigits(t2, bytes2);
    var k := FixedOrder(t1, t2, 12);
    assert forall i :: 0 <= i < k ==> f1[i] == f1[..k][i] && f2[i] == f2[..k][i];
    var at := if k < 8 then k else k + 1;
    assert forall i :: 0 <= i < at ==> s1[i] == s2[i];
    assert s1[..at] == s2[..at];
    assert s1[at] < s2[at];
  }

  lemma TimestampDigits(timestamp: nat, bytes: seq<Byte>)
    requires |bytes| == 10 && timestamp < TIMESTAMP_LIMIT
    ensures var s, f := Create(timestamp, bytes), Fixed(timestamp, 12);
      && |s| == 36 && s[8] == '-'
      && (forall i :: 0 <= i < 8 ==> s[i] == f[i])
      && (forall i :: 9 <= i < 13 ==> s[i] == f[i - 1])
  {
    hide LowBits, Value, BigEndian, Low, ToHex, PadStart, Fixed;
    HexLayout(timestamp, bytes);
  }
}
