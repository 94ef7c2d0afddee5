/** What strtol (lib/string.c:239-284) makes of signs, base prefixes and letters of either case. */
module Numerals {
  import opened Numbers

  predicate AllDigits(t: string, base: nat) { forall k :: 0 <= k < |t| ==> IsDigit(t[k], base) }

  predicate Sign(t: string) { t == "" || t == "-" || t == "+" }

  /** The result of strtol is decided by where its digits start and in what base they are read. */
  lemma StrtolIs(s: string, base0: nat, start: nat, neg: bool, base: nat)
    requires CString(s) && start < |s| && Prefix(s, base0) == (start, neg, base) && AllDigits(s[start..|s| - 1], base)
    ensures var val := Wrap(ValueOf(s[start..|s| - 1], base));
            Strtol(s, base0) == (if neg then Wrap(-val) else val, |s| - 1)
  {
    hide Prefix, ValueOf, Wrap, DigitValue;
    forall k | start <= k < |s| - 1 ensures IsDigit(s[k], base) {
      assert s[k] == s[start..|s| - 1][k - start];
    }
    DigitsEnd(s, start, |s| - 1, base);
  }

  lemma DigitsAreNotNul(sign: string, prefix: string, digits: string, base: nat)
    requires Sign(sign) && AllDigits(digits, base) && forall k :: 0 <= k < |prefix| ==> prefix[k] != NUL
    ensures var s := sign + prefix + digits + [NUL];
            && CString(s) && s[|sign + prefix|..|s| - 1] == digits
            && (sign != "" ==> s[0] == sign[0])
            && forall k :: 0 <= k < |prefix| ==> s[|sign| + k] == prefix[k]
  {
    hide DigitValue;
    var s := sign + prefix + digits + [NUL];
    forall k | 0 <= k < |s| - 1 ensures s[k] != NUL {
      if k >= |sign + prefix| {
        assert s[k] == digits[k - |sign + prefix|];
      }
    }
  }

  lemma HexPrefix(s: string, sign: string, base0: nat)
    requires CString(s) && Sign(sign) && |sign| + 2 < |s| && (sign != "" ==> s[0] == sign[0])
    requires s[|sign|] == '0' && s[|sign| + 1] == 'x' && (base0 == 0 || base0 == 16)
    ensures Prefix(s, base0) == (|sign| + 2, sign == "-", 16)
  {
    BlanksEnd(s, 0, 0);
  }

  /** After an optional sign, "0x" is skipped in base 0 and 16 and means base 16. */
  lemma ReadsHex(sign: string, digits: string, base0: nat)
    requires Sign(sign) && AllDigits(digits, 16) && (base0 == 0 || base0 == 16)
    ensures var s := sign + "0x" + digits + [NUL];
            var val := Wrap(ValueOf(digits, 16));
            CString(s) && Strtol(s, base0) == (if sign == "-" then Wrap(-val) else val, |s| - 1)
  {
    hide ValueOf, Wrap, DigitValue, Strtol;
    var s := sign + "0x" + digits + [NUL];
    DigitsAreNotNul(sign, "0x", digits, 16);
    assert s[|sign|] == "0x"[0] == '0' && s[|sign| + 1] == "0x"[1] == 'x';
    HexPrefix(s, sign, base0);
    StrtolIs(s, base0, |sign| + 2, sign == "-", 16);
  }

  /** In base 0 a leading zero, not followed by x, means base 8. */
  lemma ReadsOctal(sign: string, digits: string)
    requires Sign(sign) && AllDigits(digits, 8)
    ensures var s := sign + "0" + digits + [NUL];
            var val := Wrap(ValueOf(digits, 8));
            CString(s) && Strtol(s, 0) == (if sign == "-" then Wrap(-val) else val, |s| - 1)
  {
    hide ValueOf, Wrap, Strtol;
    var s := sign + "0" + digits + [NUL];
    DigitsAreNotNul(sign, "0", digits, 8);
    assert s[|sign|] == "0"[0] == '0';
    assert s[|sign| + 1] == if digits == "" then NUL else digits[0];
    BlanksEnd(s, 0, 0);
    assert Prefix(s, 0) == (|sign| + 1, sign == "-", 8);
    StrtolIs(s, 0, |sign| + 1, sign == "-", 8);
  }

  /** In base 0 a numeral that starts with another figure is decimal. */
  lemma ReadsDecimal(sign: string, digits: string)
    requires Sign(sign) && AllDigits(digits, 10) && digits != "" && digits[0] != '0'
    ensures var s := sign + digits + [NUL];
            var val := Wrap(ValueOf(digits, 10));
            CString(s) && Strtol(s, 0) == (if sign == "-" then Wrap(-val) else val, |s| - 1)
  {
    hide ValueOf, Wrap, Strtol;
    var s := sign + digits + [NUL];
    DigitsAreNotNul(sign, "", digits, 10);
    assert sign + "" + digits == sign + digits;
    assert s[|sign|] == digits[0] && IsDigit(digits[0], 10);
    BlanksEnd(s, 0, 0);
    assert Prefix(s, 0) == (|sign|, sign == "-", 10);
    StrtolIs(s, 0, |sign|, sign == "-", 10);
  }

  // ------------------------------------------------------------------ letters

  function Upper(c: char): char { if 'a' <= c <= 'z' then (c as int - 32) as char else c }

  function UpperAll(t: string): string { seq(|t|, i requires 0 <= i < |t| => Upper(t[i])) }

  /** Capital letters are the same digits. */
  lemma {:induction false} UpperCase(t: string, base: nat)
    requires AllDigits(t, base)
    ensures AllDigits(UpperAll(t), base) && ValueOf(UpperAll(t), base) == ValueOf(t, base)
  {
    if t != "" {
      var n := |t| - 1;
      assert AllDigits(t[..n], base);
      UpperCase(t[..n], base);
      assert UpperAll(t)[..n] == UpperAll(t[..n]);
      SameDigit(t[n], base);
      assert UpperAll(t) == UpperAll(t[..n]) + [Upper(t[n])];
    }
  }

  lemma SameDigit(c: char, base: nat)
    requires IsDigit(c, base)
    ensures IsDigit(Upper(c), base) && DigitValue(Upper(c)) == DigitValue(c)
  {
  }

  /** The letters go on from 10 to 35. */
  lemma LetterValue(i: nat)
    requires i < 26
    ensures DigitValue(('a' as int + i) as char) == 10 + i == DigitValue(('A' as int + i) as char)
    ensures IsDigit(('a' as int + i) as char, 36) && IsDigit(('A' as int + i) as char, 36)
  {
  }

  /** The digits of a base are its first figures and letters, and no more. */
  lemma DigitExact(c: char, base: nat)
    requires base <= 36
    ensures IsDigit(c, base) <==>
            if base <= 10 then '0' as int <= c as int < '0' as int + base
            else '0' <= c <= '9' || 'a' as int <= c as int < 'a' as int + base - 10 || 'A' as int <= c as int < 'A' as int + base - 10
  {
  }

  /** strtol stops at the first character that is no digit of the base, and returns the number before it. */
  lemma StopsAtNonDigit(digits: string, rest: string, base: nat)
    requires (base == 8 || base == 10) && AllDigits(digits, base) && digits != "" && rest != ""
    requires !IsDigit(rest[0], base) && forall k :: 0 <= k < |rest| ==> rest[k] != NUL
    ensures var s := digits + rest + [NUL];
            CString(s) && Strtol(s, base) == (Wrap(ValueOf(digits, base)), |digits|)
  {
    hide ValueOf, Wrap, IsDigit;
    var s := digits + rest + [NUL];
    forall k | 0 <= k < |digits| ensures s[k] == digits[k] && IsDigit(s[k], base) && s[k] != NUL {
      DigitFacts(digits[k], base);
    }
    assert forall k :: |digits| <= k < |s| - 1 ==> s[k] == rest[k - |digits|];
    DigitFacts(s[0], base);
    BlanksEnd(s, 0, 0);
    assert Prefix(s, base) == (0, false, base);
    hide Prefix;
    DigitsEnd(s, 0, |digits|, base);
    assert s[0..|digits|] == digits;
  }

  lemma DigitFacts(c: char, base: nat)
    requires IsDigit(c, base)
    ensures c != NUL && !Blank(c) && c != '+' && c != '-'
  {
  }

  /** Printed in base 16 and written in capitals after "0x", a number below 2^31 is still read back, in base 0 and 16. */
  lemma CapitalHexReadsBack(num: nat, base0: nat)
    requires num < 0x8000_0000 && (base0 == 0 || base0 == 16)
    ensures var s := "" + "0x" + UpperAll(DigitsOf(num, 16)) + [NUL];
            CString(s) && Strtol(s, base0) == (num, |s| - 1)
  {
    hide ValueOf, Strtol, Prefix, DigitsOf, UpperAll, DigitValue;
    DigitsDenote(num, 16);
    PrintableDigits(DigitsOf(num, 16), 16);
    UpperCase(DigitsOf(num, 16), 16);
    ReadsHex("", UpperAll(DigitsOf(num, 16)), base0);
    WrapSmall(num);
  }

  lemma PrintableDigits(t: string, base: nat)
    requires AllPrintable(t, base)
    ensures AllDigits(t, base)
  {
  }
}
