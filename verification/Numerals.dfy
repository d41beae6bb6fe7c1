/** Numbers as text: IntToStr and the in-place reversal it ends with. */
module Numerals {
  import opened Words

  type Int32 = x: int | -0x8000_0000 <= x < 0x8000_0000

  /** Conversion to uint32_t, and back. */
  function Unsigned(x: Int32): Word {
    if x < 0 then x + 0x1_0000_0000 else x
  }

  function Signed(x: Word): Int32 {
    if x >= 0x8000_0000 then x - 0x1_0000_0000 else x
  }

  /** Negation in 32 bits; the least number is its own negation. */
  function Negated(x: Int32): (r: Int32)
    requires x < 0
    ensures Unsigned(r) == 0 - (x as int)
  {
    if x == -0x8000_0000 then x else -x
  }

  /** The digit, from '0' to '9' and then from 'A' on. A remainder of 2^31 or more counts as negative, and a char holds
      8 bits; neither matters up to base 36. */
  function DigitChar(d: nat): char {
    if 9 < d < 0x8000_0000 then (('A' as int + d - 10) % 256) as char else (('0' as int + d) % 256) as char
  }

  function DigitValue(c: char): nat {
    if '0' <= c <= '9' then c as int - '0' as int else if 'A' <= c <= 'Z' then c as int - 'A' as int + 10 else 0
  }

  lemma DigitsAreRead(d: nat)
    requires d < 36
    ensures DigitValue(DigitChar(d)) == d && DigitChar(d) != '-' && (DigitChar(d) == '0' <==> d == 0)
  {
  }

  const ALPHABET: string := "0123456789ABCDEFGHIJKLMNOPQRSTUVWXYZ"

  /** The digits of the bases up to 36, and the characters that follow them in larger bases. */
  lemma DigitsByName(d: nat)
    ensures |ALPHABET| == 36
    ensures d < 36 ==> DigitChar(d) == ALPHABET[d] && DigitValue(ALPHABET[d]) == d
    ensures 36 <= d < 0x8000_0000 ==> DigitChar(d) as int == (d + 55) % 256
    ensures 0x8000_0000 <= d ==> DigitChar(d) as int == (d + 48) % 256
  {
  }

  /** Zero is written as one digit in every base and length. */
  lemma ZeroText(len: nat, base: nat)
    requires 1 <= base
    ensures TextOf(0, len, base) == "0"
  {
  }

  lemma Distribute(a: nat, b: nat, c: nat)
    ensures (a + b) * c == a * c + b * c && b * c >= 0
  {
  }

  function Quotient(u: nat, base: nat): (q: nat)
    requires base >= 1
    ensures q <= u && (u > 0 && base >= 2 ==> q < u)
  {
    assert u == u / base * base + u % base;
    if base == 1 then u
    else
      Distribute(2, base - 2, u / base);
      u / base
  }

  function Remainder(u: nat, base: nat): (d: nat)
    requires base >= 1
    ensures d < base
  {
    u % base
  }

  /** The digits of u, lowest first, as the loop produces them. */
  function Digits(u: nat, base: nat): seq<char>
    requires 2 <= base
  {
    if u == 0 then [] else [DigitChar(Remainder(u, base))] + Digits(Quotient(u, base), base)
  }

  /** The digits that the loop keeps, at most n of them. In base 1 the number never changes and all n are zeros. */
  function Kept(u: nat, base: nat, n: nat): (s: seq<char>)
    requires 1 <= base
    ensures |s| <= n
  {
    if u == 0 || n == 0 then [] else [DigitChar(Remainder(u, base))] + Kept(Quotient(u, base), base, n - 1)
  }

  lemma {:induction false} KeptIsPrefix(u: nat, base: nat, n: nat)
    requires 2 <= base
    ensures Kept(u, base, n) == Prefix(Digits(u, base), n)
    decreases n
  {
    if u > 0 && n > 0 {
      var q, d := UnfoldDigits(u, base);
      KeptIsPrefix(q, base, n - 1);
    }
  }

  lemma {:induction false} KeptInBaseOne(u: nat, n: nat)
    requires u > 0
    ensures |Kept(u, 1, n)| == n && forall i :: 0 <= i < n ==> Kept(u, 1, n)[i] == '0'
  {
    if n > 0 { KeptInBaseOne(u, n - 1); }
  }

  function Mirror<T>(s: seq<T>): (r: seq<T>)
    ensures |r| == |s| && forall i :: 0 <= i < |s| ==> r[i] == s[|s| - 1 - i]
  {
    if s == [] then [] else Mirror(s[1..]) + [s[0]]
  }

  /** Reading a numeral, highest digit first. */
  function Value(s: seq<char>, base: nat): nat {
    if s == [] then 0 else Value(s[..|s| - 1], base) * base + DigitValue(s[|s| - 1])
  }

  /** Reading an optional sign and a numeral. */
  function Parse(s: seq<char>, base: nat): int {
    if s != [] && s[0] == '-' then
      var v: int := Value(s[1..], base);
      -v
    else Value(s, base)
  }

  /** The number whose digits are written: base 10 drops the sign, every other base takes the 32-bit pattern. */
  function Magnitude(num: int, base: nat): nat
    requires -0x8000_0000 <= num < 0x8000_0000
  {
    if num >= 0 then num else if base == 10 then -num else num + 0x1_0000_0000
  }

  /** What IntToStr writes for a nonzero number before it reverses the buffer: at most len digits, lowest first, and
      a sign. */
  function Written(num: Int32, len: nat, base: nat): seq<char>
    requires 1 <= base
  {
    Kept(Magnitude(num, base), base, len) + if num < 0 && base == 10 then ['-'] else []
  }

  /** The text that IntToStr leaves in the buffer. */
  function TextOf(num: Int32, len: nat, base: nat): seq<char>
    requires 1 <= base
  {
    if num == 0 then ['0'] else Mirror(Written(num, len, base))
  }

  function Prefix<T>(s: seq<T>, n: nat): seq<T> {
    if n < |s| then s[..n] else s
  }

  lemma {:induction false} ValueOfMirror(s: seq<char>, base: nat)
    requires s != []
    ensures Value(Mirror(s), base) == Value(Mirror(s[1..]), base) * base + DigitValue(s[0])
  {
    var m := Mirror(s);
    assert m == Mirror(s[1..]) + [s[0]];
    assert m[..|m| - 1] == Mirror(s[1..]) && m[|m| - 1] == s[0];
  }

  lemma UnfoldDigits(u: nat, base: nat) returns (q: nat, d: nat)
    requires 2 <= base && u > 0
    ensures q == Quotient(u, base) && d == Remainder(u, base) && u == q * base + d && q < u && d < base
    ensures Digits(u, base) == [DigitChar(d)] + Digits(q, base)
  {
    q, d := Quotient(u, base), Remainder(u, base);
  }

  /** Reading back the lowest n digits of u gives u exactly when u has no more than n digits, and less otherwise. */
  lemma {:induction false} PrefixReadsBackIff(u: nat, base: nat, n: nat)
    requires 2 <= base <= 36
    ensures Value(Mirror(Prefix(Digits(u, base), n)), base) <= u
    ensures Value(Mirror(Prefix(Digits(u, base), n)), base) == u <==> |Digits(u, base)| <= n
    decreases u
  {
    if u > 0 && n > 0 {
      var q, d := UnfoldDigits(u, base);
      var s, rest := Prefix(Digits(u, base), n), Prefix(Digits(q, base), n - 1);
      assert s[0] == DigitChar(d) && s[1..] == rest;
      PrefixReadsBackIff(q, base, n - 1);
      ValueOfMirror(s, base);
      DigitsAreRead(d);
      HornerStep(u, q, base, d, Value(Mirror(rest), base));
    }
  }

  lemma HornerStep(u: nat, q: nat, base: nat, d: nat, v: nat)
    requires u == q * base + d && v <= q && base > 0
    ensures v * base + d <= u && (v * base + d == u <==> v == q)
  {
    Distribute(v, q - v, base);
    if v < q { Distribute(1, q - v - 1, base); }
  }

  /** The highest digit is not zero. */
  lemma {:induction false} HighestDigitIsNotZero(u: nat, base: nat)
    requires 2 <= base <= 36 && u > 0
    ensures Digits(u, base) != [] && Digits(u, base)[|Digits(u, base)| - 1] != '0'
    decreases u
  {
    var q, d := UnfoldDigits(u, base);
    DigitsAreRead(d);
    assert q == 0 ==> Digits(q, base) == [];
    if q > 0 { HighestDigitIsNotZero(q, base); }
  }

  lemma {:induction false} DigitsAreNotSigns(u: nat, base: nat, i: nat)
    requires 2 <= base <= 36 && i < |Digits(u, base)|
    ensures Digits(u, base)[i] != '-'
    decreases u
  {
    var q, d := UnfoldDigits(u, base);
    DigitsAreRead(d);
    if i > 0 { DigitsAreNotSigns(q, base, i - 1); }
  }

  /** What a reader is meant to get back: the number itself in base 10, its 32-bit pattern in any other. */
  function Meant(num: Int32, base: nat): int {
    if base == 10 then num else Unsigned(num)
  }

  /** The text reads back as the number exactly when its digits fit in len; IntToStr reports success either way. */
  lemma RoundTripIff(num: Int32, len: Word, base: nat)
    requires 2 <= base <= 36 && len > 0
    ensures Parse(TextOf(num, len, base), base) == Meant(num, base) <==> |Digits(Magnitude(num, base), base)| <= len
    ensures Parse(TextOf(num, len, base), base) == Meant(num, base) <==> Magnitude(num, base) < Power(base, len)
  {
    DigitCountIff(Magnitude(num, base), base, len);
    ParseZero(base);
    PrefixReadsBackIff(Magnitude(num, base), base, len);
    ParseText(num, len, base);
    hide Digits, Mirror, Value, DigitChar, Prefix, TextOf, Parse;
  }

  /** Reading the text of a nonzero number is reading its digits. */
  lemma ParseText(num: Int32, len: Word, base: nat)
    requires 2 <= base <= 36 && len > 0
    ensures num != 0 ==>
      var v: int := Value(Mirror(Prefix(Digits(Magnitude(num, base), base), len)), base);
      Parse(TextOf(num, len, base), base) == if num < 0 && base == 10 then -v else v
    ensures num == 0 ==> TextOf(num, len, base) == ['0']
  {
    hide Digits, Mirror, Value, DigitChar, Magnitude;
    var all := Digits(Magnitude(num, base), base);
    KeptIsPrefix(Magnitude(num, base), base, len);
    var s, t := Prefix(all, len), TextOf(num, len, base);
    if num != 0 {
      if num < 0 && base == 10 {
        assert t[0] == '-' && t[1..] == Mirror(s);
      } else {
        assert t == Mirror(s);
        if s != [] {
          DigitsAreNotSigns(Magnitude(num, base), base, |s| - 1);
          assert t[0] == s[|s| - 1];
        }
      }
    }
  }

  lemma ParseZero(base: nat)
    requires 2 <= base <= 36
    ensures Parse(['0'], base) == 0 && Digits(0, base) == []
  {
    assert Value(['0'], base) == Value([], base) * base;
  }

  /** Complete texts have no leading zero, except for 0 itself. */
  lemma NoLeadingZero(num: Int32, len: Word, base: nat)
    requires 2 <= base <= 36 && num != 0 && |Digits(Magnitude(num, base), base)| <= len
    ensures var t := TextOf(num, len, base); t != [] && if t[0] == '-' then |t| > 1 && t[1] != '0' else t[0] != '0'
  {
    var u := Magnitude(num, base);
    HighestDigitIsNotZero(u, base);
    var s := Digits(u, base);
    DigitsAreNotSigns(u, base, |s| - 1);
    KeptIsPrefix(u, base, len);
    hide Digits, Kept, Mirror;
    var w := Written(num, len, base);
    assert w == s + if num < 0 && base == 10 then ['-'] else [];
    assert Mirror(w)[0] == w[|w| - 1] && (|w| > 1 ==> Mirror(w)[1] == w[|w| - 2]);
  }

  /** The failing family is not empty: with len 1 the text of 12 is "2". */
  lemma TruncatedText()
    ensures TextOf(12, 1, 10) == "2" && Parse(TextOf(12, 1, 10), 10) != 12
  {
    assert Digits(1, 10) == ['1'];
    assert Digits(12, 10) == ['2', '1'];
    KeptIsPrefix(12, 10, 1);
    assert Mirror(['2']) == "2";
    RoundTripIff(12, 1, 10);
  }

  /** i pairs of the first num cells are exchanged, counted from both ends; the other cells are as they were. */
  ghost predicate Exchanged(s: seq<char>, t: seq<char>, num: nat, i: nat) {
    && i <= num / 2 && num <= |s| && |t| == |s|
    && (forall k :: 0 <= k < i ==> t[k] == s[num - 1 - k])
    && (forall k :: num - i <= k < num ==> t[k] == s[num - 1 - k])
    && (forall k :: i <= k < num - i || num <= k < |s| ==> t[k] == s[k])
  }

  lemma ExchangeNext(s: seq<char>, t: seq<char>, num: nat, i: nat)
    requires Exchanged(s, t, num, i) && i < num / 2
    ensures Exchanged(s, t[i := t[num - 1 - i]][num - 1 - i := t[i]], num, i + 1)
  {
  }

  lemma ExchangedIsMirrored(s: seq<char>, t: seq<char>, num: nat)
    requires Exchanged(s, t, num, num / 2)
    ensures t == Mirror(s[..num]) + s[num..]
  {
  }

  method Strrev(str: array<char>, num: nat)
    requires num <= str.Length
    modifies str
    ensures str[..] == Mirror(old(str[..num])) + old(str[num..])
  {
    ghost var s := str[..];
    hide Mirror;
    assert s[..num] == str[..num] && s[num..] == str[num..];
    assert Exchanged(s, s, num, 0);
    hide Exchanged;
    var i := 0;
    while i < num / 2
      invariant i <= num / 2 && Exchanged(s, str[..], num, i)
    {
      ghost var t := str[..];
      ExchangeNext(s, t, num, i);
      var tmp := str[i];
      str[i] := str[num - 1 - i];
      str[num - 1 - i] := tmp;
      assert str[..] == t[i := t[num - 1 - i]][num - 1 - i := t[i]];
      i := i + 1;
    }
    ExchangedIsMirrored(s, str[..], num);
  }

  /** The cells that IntToStr writes, terminator included. */
  function Cells(num: Int32, len: Word, base: nat): nat
    requires 1 <= base
  {
    if len == 0 then 0 else |TextOf(num, len, base)| + 1
  }

  function Power(b: nat, n: nat): nat {
    if n == 0 then 1 else Power(b, n - 1) * b
  }

  /** A number has no more than n digits exactly when it is below base^n. */
  lemma {:induction false} DigitCountIff(u: nat, base: nat, n: nat)
    requires 2 <= base
    ensures |Digits(u, base)| <= n <==> u < Power(base, n)
    decreases u
  {
    if u == 0 {
      PowerIsPositive(base, n);
    } else if n > 0 {
      var q, d := UnfoldDigits(u, base);
      DigitCountIff(q, base, n - 1);
      var p := Power(base, n - 1);
      if q < p { Distribute(q + 1, p - q - 1, base); } else { Distribute(p, q - p, base); }
      Distribute(q, 1, base);
    }
  }

  lemma {:induction false} PowerIsPositive(b: nat, n: nat)
    requires b > 0
    ensures Power(b, n) > 0
  {
    if n > 0 {
      PowerIsPositive(b, n - 1);
      Distribute(1, Power(b, n - 1) - 1, b);
    }
  }

  /** The cells written stay within len exactly when len is 0, or the digits, the sign and the terminator fit; they
      never exceed len by more than two. */
  lemma CellsFitIff(num: Int32, len: Word, base: nat)
    requires 1 <= base
    ensures Cells(num, len, base) <= len + 2
    ensures var sign := if num < 0 && base == 10 then 1 else 0;
      Cells(num, len, base) <= len <==>
        len == 0 || (if num == 0 then len >= 2 else len >= sign + 1 && Magnitude(num, base) < Power(base, len - 1 - sign))
  {
    hide Digits, Kept, Magnitude, Power, Mirror;
    var sign := if num < 0 && base == 10 then 1 else 0;
    if num != 0 && base >= 2 {
      KeptIsPrefix(Magnitude(num, base), base, len);
      if len >= sign + 1 { DigitCountIff(Magnitude(num, base), base, len - 1 - sign); }
    } else if num != 0 && len > 0 {
      assert Magnitude(num, 1) > 0 by { MagnitudeIsPositive(num); }
      KeptInBaseOne(Magnitude(num, 1), len);
      PowerOfOne(len - 1);
    }
  }

  lemma MagnitudeIsPositive(num: Int32)
    requires num != 0
    ensures Magnitude(num, 1) > 0
  {
  }

  lemma {:induction false} PowerOfOne(n: nat)
    ensures Power(1, n) == 1
  {
    if n > 0 { PowerOfOne(n - 1); }
  }

  /** The overrun is real: 0 in one cell, and -7 in two, write past them. */
  lemma ShortBuffers()
    ensures Cells(0, 1, 10) == 2 && Cells(-7, 2, 10) == 3
  {
    assert Digits(7, 10) == ['7'];
    KeptIsPrefix(7, 10, 2);
  }

  method IntToStr(num: Int32, buf: array<char>, len: Word, base: Word) returns (status: int)
    requires 1 <= base && Cells(num, len, base) <= buf.Length
    modifies buf
    ensures status == if len == 0 then -1 else 0
    ensures len == 0 ==> buf[..] == old(buf[..])
    ensures len > 0 ==> var t := TextOf(num, len, base);
      buf[..|t| + 1] == t + ['\0'] && buf[|t| + 1..] == old(buf[|t| + 1..])
  {
    var i: nat := 0;
    var neg := 0;
    var n: Int32 := num;
    if len == 0 { return -1; }
    if n == 0 {
      buf[0] := '0';
      buf[1] := '\0';
      return 0;
    }
    if n < 0 && base == 10 {
      neg := 1;
      n := Negated(n);
    }
    WrittenDigits(num, len, base);
    hide Kept, Unsigned, Negated, TextOf, Mirror, Written;
    ghost var before, w := buf[..], Written(num, len, base);
    i := WriteDigits(n, buf, len, base);
    ghost var rest := before[i..];
    SliceTwice(before, i, |w| - i + 1);
    assert buf[..i] + (if neg == 1 then ['-'] else []) == w && buf[i..] == rest;
    Finish(buf, i, neg);
    return 0;
  }

  lemma WrittenDigits(num: Int32, len: nat, base: nat)
    requires 1 <= base && num != 0
    ensures TextOf(num, len, base) == Mirror(Written(num, len, base))
    ensures Written(num, len, base) ==
            if num < 0 && base == 10 then Kept(Unsigned(Negated(num)), base, len) + ['-']
            else Kept(Unsigned(num), base, len)
  {
    hide Kept, Mirror;
  }

  lemma SliceTwice(s: seq<char>, i: nat, k: nat)
    requires i + k <= |s|
    ensures s[i..][k..] == s[i + k..]
  {
  }

  /** The end of IntToStr: sign, terminator and reversal. */
  method Finish(buf: array<char>, count: nat, neg: int)
    requires count + (if neg == 1 then 1 else 0) < buf.Length
    modifies buf
    ensures var w := old(buf[..count]) + if neg == 1 then ['-'] else [];
      buf[..|w| + 1] == Mirror(w) + ['\0'] && buf[|w| + 1..] == old(buf[count..])[|w| - count + 1..]
  {
    hide Mirror;
    var i := count;
    if neg == 1 {
      buf[i] := '-';
      i := i + 1;
    }
    assert buf[..i] == old(buf[..count]) + if neg == 1 then ['-'] else [];
    buf[i] := '\0';
    ghost var s := buf[..];
    Strrev(buf, i);
    assert buf[..i + 1] == Mirror(s[..i]) + ['\0'];
  }

  /** The loop of IntToStr: the digits of the 32-bit pattern of num, lowest first, at most len of them. */
  method WriteDigits(num: Int32, buf: array<char>, len: Word, base: Word) returns (i: nat)
    requires 1 <= base && |Kept(Unsigned(num), base, len)| <= buf.Length
    modifies buf
    ensures var s := Kept(Unsigned(num), base, len);
      i == |s| && buf[..i] == s && buf[i..] == old(buf[i..])
  {
    i := 0;
    var n := num;
    ghost var all, before := Kept(Unsigned(num), base, len), buf[..];
    hide Kept, Signed, Unsigned, Quotient, Remainder, DigitChar;
    while n != 0 && i < len
      invariant i <= len && i <= |all| && all == buf[..i] + Kept(Unsigned(n), base, len - i)
      invariant buf[i..] == before[i..]
      decreases len - i
    {
      UnfoldKept(n, base, len - i);
      ghost var written, rest := buf[..i], Kept(Quotient(Unsigned(n), base), base, len - i - 1);
      var rem := Remainder(Unsigned(n), base);
      buf[i] := DigitChar(rem);
      assert buf[..i + 1] == written + [DigitChar(rem)] && buf[i + 1..] == before[i + 1..];
      i := i + 1;
      SignedIsInverse(Quotient(Unsigned(n), base));
      n := Signed(Quotient(Unsigned(n), base));
    }
    NothingKept(n, base, len - i);
  }

  lemma UnfoldKept(num: Int32, base: nat, n: nat)
    requires 1 <= base && num != 0 && n > 0
    ensures Kept(Unsigned(num), base, n) ==
            [DigitChar(Remainder(Unsigned(num), base))] + Kept(Quotient(Unsigned(num), base), base, n - 1)
  {
  }

  lemma NothingKept(num: Int32, base: nat, n: nat)
    requires 1 <= base && (num == 0 || n == 0)
    ensures Kept(Unsigned(num), base, n) == []
  {
  }

  lemma SignedIsInverse(x: Word)
    ensures Unsigned(Signed(x)) == x
  {
  }
}
