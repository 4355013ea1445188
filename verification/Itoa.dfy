/**
 Printing integers: `ltoa` and `ultoa`.  `long` has 32 bits.

 The digits are produced least significant first into a scratch array of 33 characters and
 then copied backwards into the caller's string.
 */
module Itoa {
  import opened Common

  type int32 = x: int | -0x8000_0000 <= x < 0x8000_0000

  function DigitChar(d: nat): char
    requires d < 36
  {
    if d < 10 then ('0' as int + d) as char else ('a' as int + d - 10) as char
  }

  /** The value of a digit, and 36 for any other character. */
  function DigitValue(c: char): nat {
    if '0' <= c <= '9' then c as int - '0' as int
    else if 'a' <= c <= 'z' then c as int - 'a' as int + 10
    else 36
  }

  /** The shortest text of `v`. */
  function Text(v: nat, radix: nat): (s: string)
    requires 2 <= radix <= 36
    ensures |s| >= 1
    decreases v
  {
    if v < radix then [DigitChar(v)]
    else
      Smaller(v, radix);
      Text(v / radix, radix) + [DigitChar(v % radix)]
  }

  lemma MulMonotone(a: nat, b: nat, radix: nat)
    requires a < b
    ensures a * radix + radix <= b * radix
  {
    calc {
      b * radix;
      (a + 1 + (b - a - 1)) * radix;
      a * radix + radix + (b - a - 1) * radix;
    }
  }

  lemma DivMod(v: nat, radix: nat)
    requires radix >= 2
    ensures v == v / radix * radix + v % radix && 0 <= v % radix < radix
  {
  }

  lemma MulTwice(q: nat, radix: nat)
    requires radix >= 2
    ensures 2 * q <= q * radix
    ensures q > 0 ==> radix <= q * radix
  {
    assert q * (radix - 2) >= 0;
    if q > 0 {
      MulMonotone(0, q, radix);
    }
  }

  /** Dividing makes a number smaller, and zero exactly when it is below the radix. */
  lemma Smaller(v: nat, radix: nat)
    requires radix >= 2
    ensures 2 * (v / radix) <= v
    ensures v / radix == 0 <==> v < radix
  {
    DivMod(v, radix);
    MulTwice(v / radix, radix);
  }

  lemma QuotientRemainder(q: nat, d: nat, radix: nat)
    requires d < radix && radix >= 2
    ensures (q * radix + d) / radix == q && (q * radix + d) % radix == d
  {
    var v := q * radix + d;
    DivMod(v, radix);
    OneQuotient(q, d, v / radix, v % radix, radix);
  }

  lemma OneQuotient(q: nat, d: nat, q': nat, d': nat, radix: nat)
    requires d < radix && d' < radix && q * radix + d == q' * radix + d'
    ensures q == q' && d == d'
  {
    if q < q' {
      MulMonotone(q, q', radix);
    } else if q' < q {
      MulMonotone(q', q, radix);
    }
  }

  /** The value of a C integer converted to `unsigned long`. */
  function Unsigned(x: int): (u: nat)
    requires 0 - TWO32 <= x < TWO32
    ensures u < TWO32 && u == x % TWO32
  {
    if x < 0 then x + TWO32 else x
  }

  /** The negation of a C integer, converted in the same way; the most negative value wraps to itself. */
  function Negated(x: int32): (u: nat)
    ensures u < TWO32 && (x <= 0 ==> u == 0 - x as int)
  {
    Unsigned(0 - x as int)
  }

  /** What `ltoa` writes: a sign in radix 10 only; any other radix sees the two's complement value. */
  function LtoaText(value: int32, radix: nat): string
    requires 2 <= radix <= 36
  {
    if radix == 10 && value < 0 then "-" + Text(Negated(value), radix) else Text(Unsigned(value), radix)
  }

  // ---------- the program ----------

  /** The first loop: digits of `value` into `tmp`, least significant first. */
  method GenerateDigits(value: nat, radix: nat, tmp: array<char>) returns (tp: nat)
    requires value < TWO32 && 2 <= radix <= 36 && tmp.Length == 33
    modifies tmp
    ensures 1 <= tp <= 32 && Reversed(tmp[..tp]) == Text(value, radix)
  {
    tp := 0;
    var v: nat := value;
    Pow2Of32();
    while v != 0 || tp == 0
      invariant tp <= 32 && v < Pow2(32 - tp)
      invariant tp == 0 ==> v == value
      invariant tp > 0 ==> Produced(v, radix, tmp[..tp], Text(value, radix))
      decreases v, 1 - tp
    {
      ghost var done := tmp[..tp];
      var c;
      c, v := NextDigit(v, radix, done, Text(value, radix));
      tmp[tp] := c;
      tp := tp + 1;
      assert tmp[..tp] == done + [c];
    }
  }

  /** One round of the loop: the digit it adds to `tmp` and what is left to print. */
  method NextDigit(v: nat, radix: nat, ghost tmp: string, ghost whole: string) returns (c: char, rest: nat)
    requires 2 <= radix <= 36
    requires if tmp == "" then Text(v, radix) == whole else v > 0 && Produced(v, radix, tmp, whole)
    ensures 2 * rest <= v && Produced(rest, radix, tmp + [c], whole)
  {
    DigitStep(v, radix, tmp, whole);
    var i := v % radix;
    rest := v / radix;
    if i < 10 {
      c := ('0' as int + i) as char;
    } else {
      c := ('a' as int + i - 10) as char;
    }
  }

  /** The digits in `tmp`, read backwards, are the end of `whole`, and `v` is what is left to print. */
  ghost predicate Produced(v: nat, radix: nat, tmp: string, whole: string)
    requires 2 <= radix <= 36
  {
    if v == 0 then Reversed(tmp) == whole else Text(v, radix) + Reversed(tmp) == whole
  }

  /** One more digit in front of those already there. */
  lemma DigitStep(v: nat, radix: nat, tmp: string, whole: string)
    requires 2 <= radix <= 36
    requires if tmp == "" then Text(v, radix) == whole else v > 0 && Produced(v, radix, tmp, whole)
    ensures 0 <= v % radix < 36 && 0 <= 2 * (v / radix) <= v
    ensures Produced(v / radix, radix, tmp + [DigitChar(v % radix)], whole)
  {
    DivMod(v, radix);
    Smaller(v, radix);
    var c, done := DigitChar(v % radix), Reversed(tmp);
    ReversedAppend(tmp, c);
    if v >= radix {
      var rest := Text(v / radix, radix);
      Regroup(rest, [c], done);
    } else {
      Small(v, radix);
    }
  }

  lemma Small(v: nat, radix: nat)
    requires v < radix
    ensures v % radix == v
  {
  }

  function Reversed(s: string): (r: string)
    ensures |r| == |s|
  {
    if s == "" then "" else [s[|s| - 1]] + Reversed(s[..|s| - 1])
  }

  lemma ReversedAppend(s: string, c: char)
    ensures Reversed(s + [c]) == [c] + Reversed(s)
  {
    assert (s + [c])[..|s|] == s;
  }

  /** The second loop and the terminating zero: `tmp[..count]` backwards into `str` from `from` on. */
  method CopyReversed(tmp: array<char>, count: nat, str: array<char>, from: nat)
    requires count <= tmp.Length && from + count < str.Length && tmp != str
    modifies str
    ensures str[from..from + count] == Reversed(tmp[..count]) && str[from + count] == '\0'
    ensures forall k :: 0 <= k < str.Length && !(from <= k <= from + count) ==> str[k] == old(str[k])
  {
    var tp: nat, sp: nat := count, from;
    while tp > 0
      invariant tp <= count && sp == from + (count - tp)
      invariant str[from..sp] + Reversed(tmp[..tp]) == Reversed(tmp[..count])
      invariant forall k :: 0 <= k < str.Length && !(from <= k < sp) ==> str[k] == old(str[k])
    {
      CopyStep(str[from..sp], tmp[..tp]);
      ghost var done := str[from..sp];
      tp := tp - 1;
      str[sp] := tmp[tp];
      assert str[from..sp + 1] == done + [tmp[tp]] && tmp[..tp + 1][..tp] == tmp[..tp];
      sp := sp + 1;
    }
    str[sp] := '\0';
  }

  /** The next character to copy is the last of those not yet copied. */
  lemma CopyStep(done: string, tmp: string)
    requires tmp != ""
    ensures var last := |tmp| - 1;
            (done + [tmp[last]]) + Reversed(tmp[..last]) == done + Reversed(tmp)
  {
    var last := |tmp| - 1;
    Regroup(done, [tmp[last]], Reversed(tmp[..last]));
  }

  lemma Regroup(a: string, b: string, c: string)
    ensures (a + b) + c == a + (b + c)
  {
  }

  /** `str` holds the text `s`, ended by a zero, and nothing behind it was touched. */
  twostate predicate Holds(str: array<char>, s: string)
    reads str
  {
    && |s| < str.Length && str[..|s|] == s && str[|s|] == '\0'
    && forall k :: |s| < k < str.Length ==> str[k] == old(str[k])
  }

  /** The caller's string has room for the text and the final zero. */
  method Ltoa(value: int32, str: array?<char>, radix: int) returns (r: array?<char>)
    requires str != null && 2 <= radix <= 36 ==> |LtoaText(value, radix)| < str.Length
    modifies str
    ensures str == null || !(2 <= radix <= 36) ==> r == null && (str != null ==> str[..] == old(str[..]))
    ensures str != null && 2 <= radix <= 36 ==> r == str && Holds(str, LtoaText(value, radix))
  {
    var tmp := new char[33];
    if str == null {
      return null;
    }
    if radix > 36 || radix <= 1 {
      return null;
    }
    var sign := radix == 10 && value < 0;
    var v := if sign then Negated(value) else Unsigned(value);
    var tp := GenerateDigits(v, radix, tmp);
    Assemble(sign, tmp, tp, str, Text(v, radix));
    return str;
  }

  /** The end of `ltoa`: the sign, the digits in reading order, and the final zero. */
  method Assemble(sign: bool, tmp: array<char>, tp: nat, str: array<char>, ghost digits: string)
    requires tp <= tmp.Length && tmp != str && Reversed(tmp[..tp]) == digits
    requires (if sign then 1 else 0) + tp < str.Length
    modifies str
    ensures Holds(str, if sign then "-" + digits else digits)
  {
    var sp := 0;
    if sign {
      str[sp] := '-';
      sp := sp + 1;
    }
    CopyReversed(tmp, tp, str, sp);
    assert str[..sp + tp] == str[..sp] + str[sp..sp + tp];
  }

  method Ultoa(value: nat, str: array?<char>, radix: int) returns (r: array?<char>)
    requires value < TWO32
    requires str != null && 2 <= radix <= 36 ==> |Text(value, radix)| < str.Length
    modifies str
    ensures str == null || !(2 <= radix <= 36) ==> r == null && (str != null ==> str[..] == old(str[..]))
    ensures str != null && 2 <= radix <= 36 ==> r == str && Holds(str, Text(value, radix))
  {
    var tmp := new char[33];
    if str == null {
      return null;
    }
    if radix > 36 || radix <= 1 {
      return null;
    }
    var tp := GenerateDigits(value, radix, tmp);
    Assemble(false, tmp, tp, str, Text(value, radix));
    return str;
  }

  // ---------- what the text means ----------

  function Pow2(n: nat): (p: nat)
    ensures p >= 1
  {
    if n == 0 then 1 else 2 * Pow2(n - 1)
  }

  lemma Pow2Of32()
    ensures Pow2(32) == TWO32
  {
    assert Pow2(8) == 0x100;
    assert Pow2(16) == 0x1_0000;
    assert Pow2(24) == 0x100_0000;
  }

  /** A value of `w` bits has at least one digit and at most `w`, in every radix. */
  lemma {:induction false} DigitBound(v: nat, radix: nat, w: nat)
    requires 2 <= radix <= 36 && 1 <= w && v < Pow2(w)
    ensures 1 <= |Text(v, radix)| <= w
    decreases w
  {
    if v >= radix {
      Smaller(v, radix);
      assert w > 1;
      DigitBound(v / radix, radix, w - 1);
    }
  }

  /** An independent reader: Horner's rule over the digits. */
  function Parse(s: string, radix: nat): nat {
    if s == "" then 0 else Parse(s[..|s| - 1], radix) * radix + DigitValue(s[|s| - 1])
  }

  /** A reader for signed text. */
  function ParseSigned(s: string, radix: nat): int {
    if s != "" && s[0] == '-' then 0 - (Parse(s[1..], radix) as int) else Parse(s, radix)
  }

  lemma ValueOfDigit(d: nat)
    requires d < 36
    ensures DigitValue(DigitChar(d)) == d
  {
  }

  lemma ParseAppend(s: string, d: nat, radix: nat)
    requires d < 36
    ensures Parse(s + [DigitChar(d)], radix) == Parse(s, radix) * radix + d
  {
    var t := s + [DigitChar(d)];
    assert t[..|t| - 1] == s;
    ValueOfDigit(d);
  }

  lemma LastDigit(v: nat, radix: nat) returns (q: nat, d: nat)
    requires 2 <= radix <= 36 && v >= radix
    ensures q < v && d < radix && v == q * radix + d
    ensures Text(v, radix) == Text(q, radix) + [DigitChar(d)]
  {
    Smaller(v, radix);
    DivMod(v, radix);
    q, d := v / radix, v % radix;
  }

  lemma {:induction false} ParseOfText(v: nat, radix: nat)
    requires 2 <= radix <= 36
    ensures Parse(Text(v, radix), radix) == v
    decreases v
  {
    if v < radix {
      ParseAppend("", v, radix);
      assert Parse("", radix) == 0 && "" + [DigitChar(v)] == Text(v, radix);
    } else {
      var q, d := LastDigit(v, radix);
      ParseOfText(q, radix);
      ParseAppend(Text(q, radix), d, radix);
    }
  }

  /** Text as `Text` makes it: digits of the radix, no leading zero except in "0". */
  predicate Canonical(s: string, radix: nat) {
    && s != "" && (forall k :: 0 <= k < |s| ==> DigitValue(s[k]) < radix)
    && (|s| > 1 ==> s[0] != '0')
  }

  lemma {:induction false} TextIsCanonical(v: nat, radix: nat)
    requires 2 <= radix <= 36
    ensures Canonical(Text(v, radix), radix)
    ensures v > 0 ==> Text(v, radix)[0] != '0'
    decreases v
  {
    if v >= radix {
      Smaller(v, radix);
      DivMod(v, radix);
      TextIsCanonical(v / radix, radix);
    }
  }

  /** The digits, in order. */
  lemma DigitsInOrder(d: nat)
    requires d < 36
    ensures DigitChar(d) == "0123456789abcdefghijklmnopqrstuvwxyz"[d]
  {
  }

  lemma DigitOfValue(c: char)
    requires DigitValue(c) < 36
    ensures DigitChar(DigitValue(c)) == c
  {
  }

  /** Printing inverts reading on canonical text, so text and value determine each other. */
  lemma {:induction false} TextOfParse(s: string, radix: nat)
    requires 2 <= radix <= 36 && Canonical(s, radix)
    ensures Text(Parse(s, radix), radix) == s
    ensures s[0] != '0' ==> Parse(s, radix) > 0
  {
    var last := |s| - 1;
    var init, d := s[..last], DigitValue(s[last]);
    DigitOfValue(s[last]);
    assert s == init + [s[last]];
    if last == 0 {
      ParseOne(s, radix);
    } else {
      TextOfParse(init, radix);
      ParseMore(s, radix);
      TextStep(Parse(init, radix), d, radix);
    }
  }

  lemma ParseOne(s: string, radix: nat)
    requires |s| == 1
    ensures Parse(s, radix) == DigitValue(s[0])
  {
    assert Parse(s[..0], radix) == 0;
  }

  lemma ParseMore(s: string, radix: nat)
    requires |s| > 0
    ensures Parse(s, radix) == Parse(s[..|s| - 1], radix) * radix + DigitValue(s[|s| - 1])
  {
  }

  lemma TextStep(q: nat, d: nat, radix: nat)
    requires 2 <= radix <= 36 && q > 0 && d < radix
    ensures q * radix + d > 0
    ensures Text(q * radix + d, radix) == Text(q, radix) + [DigitChar(d)]
  {
    MulMonotone(0, q, radix);
    QuotientRemainder(q, d, radix);
  }

  /** Reading back what `ltoa` wrote gives the value, signed in radix 10 and modulo 2^32 in any other,
      for every 32-bit value including the most negative one. */
  lemma LtoaRoundTrip(value: int32, radix: nat)
    requires 2 <= radix <= 36
    ensures ParseSigned(LtoaText(value, radix), radix) == if radix == 10 then value else Unsigned(value)
  {
    if radix == 10 && value < 0 {
      ParseOfText(Negated(value), radix);
      assert LtoaText(value, radix)[1..] == Text(Negated(value), radix);
    } else {
      var s := Text(Unsigned(value), radix);
      ParseOfText(Unsigned(value), radix);
      TextIsCanonical(Unsigned(value), radix);
      assert DigitValue(s[0]) < 36;
    }
  }

  /** Different values are printed differently in the same radix. */
  lemma LtoaInjective(a: int32, b: int32, radix: nat)
    requires 2 <= radix <= 36 && LtoaText(a, radix) == LtoaText(b, radix)
    ensures a == b
  {
    LtoaRoundTrip(a, radix);
    LtoaRoundTrip(b, radix);
  }

  /** A string of 34 characters always has room: 32 digits, a sign, or the final zero. */
  lemma LtoaFits(value: int32, radix: nat)
    requires 2 <= radix <= 36
    ensures 1 <= |LtoaText(value, radix)| <= 33
    ensures !(radix == 10 && value < 0) ==> |LtoaText(value, radix)| <= 32
  {
    Pow2Of32();
    DigitBound(Unsigned(value), radix, 32);
    DigitBound(Negated(value), radix, 32);
  }
}
