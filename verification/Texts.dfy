/** Decimal numbers and splitting, as JavaScript prints, parses and splits them. */
module Texts {
  import opened Options

  function DigitChar(d: nat): char
    requires d < 10
  {
    '0' + d as char
  }

  predicate IsDigit(c: char) {
    '0' <= c <= '9'
  }

  function PrintNat(n: nat): (s: string)
    ensures |s| > 0 && forall i :: 0 <= i < |s| ==> IsDigit(s[i])
  {
    if n < 10 then [DigitChar(n)] else PrintNat(n / 10) + [DigitChar(n % 10)]
  }

  /** `${n}` for a whole number. */
  function PrintInt(n: int): string {
    if n < 0 then "-" + PrintNat(-n) else PrintNat(n)
  }

  /** JavaScript white space and line terminators. */
  predicate IsSpace(c: char) {
    || '\U{9}' <= c <= '\U{D}' || c == ' ' || c == '\U{A0}' || c == '\U{1680}' || '\U{2000}' <= c <= '\U{200A}'
    || c == '\U{2028}' || c == '\U{2029}' || c == '\U{202F}' || c == '\U{205F}' || c == '\U{3000}' || c == '\U{FEFF}'
  }

  /** The longest prefix of digits. */
  function DigitPrefix(s: string): (r: string)
    ensures r <= s && forall i :: 0 <= i < |r| ==> IsDigit(r[i])
  {
    if s != [] && IsDigit(s[0]) then [s[0]] + DigitPrefix(s[1..]) else []
  }

  function DigitOf(c: char): nat {
    if IsDigit(c) then (c - '0') as nat else 0
  }

  function NatOf(digits: string): nat {
    if digits == [] then 0 else 10 * NatOf(digits[..|digits| - 1]) + DigitOf(digits[|digits| - 1])
  }

  function TrimStart(s: string): string {
    if s != [] && IsSpace(s[0]) then TrimStart(s[1..]) else s
  }

  /** `Number.parseInt(s, 10)`; None is NaN. Whatever follows the digits is ignored. */
  function ParseInt(s: string): Option<int> {
    var t := TrimStart(s);
    var negative := t != [] && t[0] == '-';
    var digits := DigitPrefix(if t != [] && (t[0] == '-' || t[0] == '+') then t[1..] else t);
    var value: int := NatOf(digits);
    if digits == [] then None else if negative then Some(-value) else Some(value)
  }

  lemma {:induction false} NatOfPrint(n: nat)
    ensures NatOf(PrintNat(n)) == n
  {
    if n >= 10 {
      NatOfPrint(n / 10);
      assert PrintNat(n)[..|PrintNat(n)| - 1] == PrintNat(n / 10);
    }
  }

  lemma {:induction false} DigitPrefixWhole(s: string)
    requires forall i :: 0 <= i < |s| ==> IsDigit(s[i])
    ensures DigitPrefix(s) == s
  {
    if s != [] {
      DigitPrefixWhole(s[1..]);
    }
  }

  lemma ParseUnsigned(digits: string)
    requires digits != [] && forall i :: 0 <= i < |digits| ==> IsDigit(digits[i])
    ensures ParseInt(digits) == Some(NatOf(digits) as int)
  {
    hide NatOf, IsSpace, DigitPrefix, TrimStart, IsDigit;
    DigitPrefixWhole(digits);
    assert IsDigit(digits[0]);
    NoTrim(digits);
    DigitIsNoSign(digits[0]);
  }

  lemma ParseNegative(digits: string)
    requires digits != [] && forall i :: 0 <= i < |digits| ==> IsDigit(digits[i])
    ensures ParseInt(['-'] + digits) == Some(-(NatOf(digits) as int))
  {
    hide NatOf, IsSpace, DigitPrefix, TrimStart, IsDigit;
    var signed := ['-'] + digits;
    DigitPrefixWhole(digits);
    NoTrim(signed);
    assert signed[1..] == digits && signed[0] == '-';
  }

  lemma DigitIsNoSign(c: char)
    requires IsDigit(c)
    ensures c != '-' && c != '+'
  {
  }

  lemma NoTrim(s: string)
    requires s != [] && (IsDigit(s[0]) || s[0] == '-')
    ensures TrimStart(s) == s
  {
  }

  /** Reading back a printed whole number. */
  lemma ParsePrinted(n: int)
    ensures ParseInt(PrintInt(n)) == Some(n)
  {
    hide PrintNat, NatOf, ParseInt;
    var m := if n < 0 then -n else n;
    NatOfPrint(m);
    ParseUnsigned(PrintNat(m));
    ParseNegative(PrintNat(m));
  }

  lemma PrintInjective(m: int, n: int)
    requires PrintInt(m) == PrintInt(n)
    ensures m == n
  {
    ParsePrinted(m);
    ParsePrinted(n);
  }

  lemma PrintFreeOf(n: int, c: char)
    requires !IsDigit(c) && c != '-'
    ensures c !in PrintInt(n)
  {
  }

  /** `s.split(c)` for a one-character separator. */
  function Split(s: string, c: char): (parts: seq<string>)
    ensures |parts| > 0
  {
    if s == [] then [[]]
    else
      var rest := Split(s[1..], c);
      if s[0] == c then [[]] + rest else [[s[0]] + rest[0]] + rest[1..]
  }

  lemma {:induction false} SplitFirst(a: string, c: char, rest: string)
    requires c !in a
    ensures Split(a + [c] + rest, c) == [a] + Split(rest, c)
  {
    var whole := a + [c] + rest;
    if a == [] {
      assert whole[1..] == rest;
    } else {
      SplitFirst(a[1..], c, rest);
      assert whole[1..] == a[1..] + [c] + rest;
      assert [whole[0]] + a[1..] == a;
    }
  }

  lemma {:induction false} SplitNone(a: string, c: char)
    requires c !in a
    ensures Split(a, c) == [a]
  {
    if a != [] {
      SplitNone(a[1..], c);
      assert [a[0]] + a[1..] == a;
    }
  }

  /** Splitting counts the separators, so each joint adds the pieces of both sides. */
  lemma {:induction false} SplitCount(a: string, b: string, c: char)
    ensures |Split(a + [c] + b, c)| == |Split(a, c)| + |Split(b, c)|
  {
    var whole := a + [c] + b;
    if a == [] {
      assert whole[1..] == b;
    } else {
      SplitCount(a[1..], b, c);
      assert whole[1..] == a[1..] + [c] + b;
    }
  }

  lemma {:induction false} SplitWhole(a: string, c: char)
    requires |Split(a, c)| == 1
    ensures c !in a
  {
    if a != [] {
      SplitWhole(a[1..], c);
    }
  }

  /** Three parts without separators join to a text that no other three parts join to. */
  lemma JoinedParts(a: string, m: string, b: string, a': string, m': string, b': string, c: char)
    requires c !in a' && c !in m' && c !in b'
    requires a + [c] + (m + [c] + b) == a' + [c] + (m' + [c] + b')
    ensures a == a' && m == m' && b == b'
  {
    hide Split;
    SplitCount(a, m + [c] + b, c);
    SplitCount(m, b, c);
    SplitCount(a', m' + [c] + b', c);
    SplitCount(m', b', c);
    SplitNone(a', c);
    SplitNone(m', c);
    SplitNone(b', c);
    SplitWhole(a, c);
    SplitWhole(m, c);
    HeadUnique(a, m + [c] + b, a', m' + [c] + b', c);
    HeadUnique(m, b, m', b', c);
  }

  lemma NoLaterSeparator(a: string, b: string, c: char)
    requires c !in b
    ensures forall k :: |a| < k < |a + [c] + b| ==> (a + [c] + b)[k] != c
  {
    forall k | |a| < k < |a + [c] + b|
      ensures (a + [c] + b)[k] != c
    {
      assert (a + [c] + b)[k] == b[k - |a| - 1];
    }
  }

  /** A separator that occurs in neither tail splits a text in one way only. */
  lemma TailUnique(a: string, b: string, a': string, b': string, c: char)
    requires c !in b && c !in b' && a + [c] + b == a' + [c] + b'
    ensures a == a' && b == b'
  {
    var s, t := a + [c] + b, a' + [c] + b';
    NoLaterSeparator(a, b, c);
    NoLaterSeparator(a', b', c);
    assert s[|a|] == c && t[|a'|] == c;
    assert a == s[..|a|] && a' == t[..|a'|];
    assert b == s[|a| + 1..] && b' == t[|a'| + 1..];
  }

  /** Likewise for a separator that occurs in neither head. */
  lemma HeadUnique(a: string, b: string, a': string, b': string, c: char)
    requires c !in a && c !in a' && a + [c] + b == a' + [c] + b'
    ensures a == a' && b == b'
  {
    SplitFirst(a, c, b);
    SplitFirst(a', c, b');
    assert ([a] + Split(b, c))[0] == a;
    assert b == (a + [c] + b)[|a| + 1..] && b' == (a' + [c] + b')[|a'| + 1..];
  }

  /** The separator of a + b sits inside c: c begins with a and a separator, and what follows there, with d, makes b. */
  predicate SplitEarlier(a: string, b: string, c: string, d: string, sep: char) {
    a + [sep] <= c && b == c[|a| + 1..] + [sep] + d
  }

  /** Two pairs join to the same text exactly when they are equal or one is a resplit of the other. */
  lemma JoinedExact(a: string, b: string, c: string, d: string, sep: char)
    ensures a + [sep] + b == c + [sep] + d <==>
            (a == c && b == d) || SplitEarlier(a, b, c, d, sep) || SplitEarlier(c, d, a, b, sep)
    ensures sep !in a && sep !in c ==> (a + [sep] + b == c + [sep] + d <==> a == c && b == d)
  {
    if sep !in a && sep !in c && a + [sep] + b == c + [sep] + d {
      HeadUnique(a, b, c, d, sep);
    }
    ResplitExact(a, b, c, d, sep);
    ResplitExact(c, d, a, b, sep);
    if |a| == |c| && a + [sep] + b == c + [sep] + d {
      assert a == (a + [sep] + b)[..|a|] && b == (a + [sep] + b)[|a| + 1..];
      assert c == (c + [sep] + d)[..|a|] && d == (c + [sep] + d)[|a| + 1..];
    }
  }

  lemma ResplitExact(a: string, b: string, c: string, d: string, sep: char)
    ensures SplitEarlier(a, b, c, d, sep) <==> |a| < |c| && a + [sep] + b == c + [sep] + d
  {
    var s, t := a + [sep] + b, c + [sep] + d;
    if |a| < |c| {
      assert s[..|a| + 1] == a + [sep] && s[|a| + 1..] == b;
      assert t[..|a| + 1] == c[..|a| + 1] && t[|a| + 1..] == c[|a| + 1..] + [sep] + d;
      assert s == s[..|a| + 1] + s[|a| + 1..] && t == t[..|a| + 1] + t[|a| + 1..];
    }
  }

  /** A list of texts as one text: each part behind its length. */
  function Flat(parts: seq<string>): string {
    if parts == [] then [] else PrintInt(|parts[0]|) + [':'] + (parts[0] + Flat(parts[1..]))
  }

  lemma {:induction false} FlatInjective(a: seq<string>, b: seq<string>)
    requires Flat(a) == Flat(b)
    ensures a == b
  {
    if a != [] && b != [] {
      PrintFreeOf(|a[0]|, ':');
      PrintFreeOf(|b[0]|, ':');
      hide PrintInt;
      HeadUnique(PrintInt(|a[0]|), a[0] + Flat(a[1..]), PrintInt(|b[0]|), b[0] + Flat(b[1..]), ':');
      PrintInjective(|a[0]|, |b[0]|);
      assert a[0] == (a[0] + Flat(a[1..]))[..|a[0]|] && b[0] == (b[0] + Flat(b[1..]))[..|a[0]|];
      assert Flat(a[1..]) == (a[0] + Flat(a[1..]))[|a[0]|..] && Flat(b[1..]) == (b[0] + Flat(b[1..]))[|a[0]|..];
      FlatInjective(a[1..], b[1..]);
    }
  }

  /** `s.split(/\s+/).filter(Boolean)`: the maximal runs of other characters, after those of `current`. */
  function Words(s: string, current: string := []): seq<string>
    decreases |s|
  {
    var done := if current == [] then [] else [current];
    if s == [] then done
    else if IsSpace(s[0]) then done + Words(s[1..], [])
    else Words(s[1..], current + [s[0]])
  }

  /** White space by code point. */
  lemma SpaceExact(c: char)
    ensures IsSpace(c) <==>
      var code := c as int;
      || 9 <= code <= 13 || code in {0x20, 0xa0, 0x1680, 0x2028, 0x2029, 0x202f, 0x205f, 0x3000, 0xfeff}
      || 0x2000 <= code <= 0x200a
  {
  }

  lemma {:induction false} WordsJoin(a: string, c: char, b: string, current: string)
    requires IsSpace(c)
    ensures Words(a + [c] + b, current) == Words(a, current) + Words(b, [])
    decreases |a|
  {
    var whole := a + [c] + b;
    if a == [] {
      assert whole[1..] == b;
    } else {
      assert whole[1..] == a[1..] + [c] + b;
      WordsJoin(a[1..], c, b, if IsSpace(a[0]) then [] else current + [a[0]]);
    }
  }

  lemma {:induction false} WordsOfRun(run: string, current: string)
    requires forall i :: 0 <= i < |run| ==> !IsSpace(run[i])
    ensures Words(run, current) == if current + run == [] then [] else [current + run]
    decreases |run|
  {
    if run == [] {
      assert current + run == current;
    } else {
      WordsOfRun(run[1..], current + [run[0]]);
      assert current + [run[0]] + run[1..] == current + run;
    }
  }

  /** A space separates words, a run without spaces is one word, and nothing else is: no empty words arise. */
  lemma WordsExact(a: string, c: char, b: string)
    ensures IsSpace(c) ==> Words(a + [c] + b) == Words(a) + Words(b)
    ensures (forall i :: 0 <= i < |a| ==> !IsSpace(a[i])) ==> Words(a) == if a == [] then [] else [a]
  {
    if IsSpace(c) {
      WordsJoin(a, c, b, []);
    }
    if forall i :: 0 <= i < |a| ==> !IsSpace(a[i]) {
      WordsOfRun(a, []);
      assert [] + a == a;
    }
  }

  lemma {:induction false} TrimExact(spaces: string, rest: string)
    requires (forall i :: 0 <= i < |spaces| ==> IsSpace(spaces[i])) && (rest != [] ==> !IsSpace(rest[0]))
    ensures TrimStart(spaces + rest) == rest
  {
    if spaces == [] {
      assert spaces + rest == rest;
    } else {
      assert (spaces + rest)[1..] == spaces[1..] + rest;
      TrimExact(spaces[1..], rest);
    }
  }

  lemma {:induction false} DigitPrefixExact(digits: string, rest: string)
    requires (forall i :: 0 <= i < |digits| ==> IsDigit(digits[i])) && (rest != [] ==> !IsDigit(rest[0]))
    ensures DigitPrefix(digits + rest) == digits
  {
    if digits == [] {
      assert digits + rest == rest;
    } else {
      assert (digits + rest)[1..] == digits[1..] + rest;
      DigitPrefixExact(digits[1..], rest);
    }
  }

  /**
   * Reading a number: leading spaces and one sign are passed over, digits are taken as long as they last, the rest
   * is ignored; without a digit there is no number.
   */
  lemma ParseExact(spaces: string, sign: string, digits: string, rest: string)
    requires forall i :: 0 <= i < |spaces| ==> IsSpace(spaces[i])
    requires sign == "" || sign == "-" || sign == "+"
    requires (forall i :: 0 <= i < |digits| ==> IsDigit(digits[i])) && (rest != [] ==> !IsDigit(rest[0]))
    requires sign == "" && digits == [] && rest != [] ==> !IsSpace(rest[0]) && rest[0] != '-' && rest[0] != '+'
    ensures ParseInt(spaces + (sign + (digits + rest)))
         == if digits == [] then None
            else if sign == "-" then Some(-(NatOf(digits) as int))
            else Some(NatOf(digits) as int)
  {
    hide *;
    var t := sign + (digits + rest);
    DigitPrefixExact(digits, rest);
    if sign == "" {
      assert t == digits + rest;
      FirstNoSpace(digits, rest);
      UnsignedExact(spaces + t, digits + rest);
    } else {
      assert t[0] == sign[0] && t[1..] == digits + rest;
      SignsAndDigits(sign[0]);
      SignedExact(spaces + t, sign[0], digits + rest);
    }
    TrimExact(spaces, t);
  }

  lemma FirstNoSpace(digits: string, rest: string)
    requires forall i :: 0 <= i < |digits| ==> IsDigit(digits[i])
    requires digits == [] && rest != [] ==> !IsSpace(rest[0]) && rest[0] != '-' && rest[0] != '+'
    ensures digits + rest != [] ==>
              !IsSpace((digits + rest)[0]) && (digits + rest)[0] != '-' && (digits + rest)[0] != '+'
  {
    hide IsSpace, IsDigit;
    if digits != [] {
      SignsAndDigits(digits[0]);
    }
  }

  lemma UnsignedExact(s: string, t: string)
    requires t != [] ==> t[0] != '-' && t[0] != '+'
    ensures TrimStart(s) == t ==>
              ParseInt(s) == if DigitPrefix(t) == [] then None else Some(NatOf(DigitPrefix(t)) as int)
  {
    hide NatOf, TrimStart, DigitPrefix;
  }

  lemma SignedExact(s: string, sign: char, t: string)
    requires sign == '-' || sign == '+'
    ensures TrimStart(s) == [sign] + t ==>
              ParseInt(s) == if DigitPrefix(t) == [] then None
                             else if sign == '-' then Some(-(NatOf(DigitPrefix(t)) as int))
                             else Some(NatOf(DigitPrefix(t)) as int)
  {
    hide NatOf, TrimStart, DigitPrefix;
    assert ([sign] + t)[1..] == t;
  }

  lemma SignsAndDigits(c: char)
    ensures IsDigit(c) || c == '-' || c == '+' ==> !IsSpace(c)
    ensures IsDigit(c) ==> c != '-' && c != '+'
  {
  }

  /** The value of a digit string, digit by digit. */
  lemma NatOfExact(digits: string, c: char)
    requires IsDigit(c)
    ensures NatOf([]) == 0 && NatOf(digits + [c]) == 10 * NatOf(digits) + (c as int - '0' as int)
  {
    assert (digits + [c])[..|digits|] == digits;
  }

  /** A printed number has a sign exactly when negative, and no leading zero but for zero itself. */
  lemma PrintedForm(n: int)
    ensures n >= 0 ==> IsDigit(PrintInt(n)[0]) && (PrintInt(n)[0] == '0' <==> n == 0)
    ensures n < 0 ==> PrintInt(n) == "-" + PrintInt(-n)
    ensures |PrintInt(0)| == 1
  {
    if n > 0 {
      NoLeadingZero(n);
    }
  }

  lemma {:induction false} NoLeadingZero(n: nat)
    requires n > 0
    ensures PrintNat(n)[0] != '0'
  {
    if n >= 10 {
      NoLeadingZero(n / 10);
    }
  }
}
