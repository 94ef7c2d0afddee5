/** printnum (lib/printfmt.c:37-52) and strtol (lib/string.c:239-284), and that the second reads what the first prints. */
module Numbers {

  const DIGITS: string := "0123456789abcdef"
  const NUL: char := '\0'

  // ------------------------------------------------------------------ printnum

  /** The characters printnum hands to putch, in order. */
  function PrintNum(num: nat, base: nat, width: int, padc: char): (r: string)
    requires 2 <= base <= 16
  {
    if num >= base then
      QuotientDecreases(num, base);
      PrintNum(num / base, base, width - 1, padc) + [DIGITS[num % base]]
    else Pad(width - 1, padc) + [DIGITS[num % base]]
  }

  /** Padding of the given width, if positive. */
  function Pad(width: int, padc: char): string { if width <= 0 then "" else seq(width, _ => padc) }

  lemma QuotientRemainder(num: nat, base: nat)
    requires base >= 2
    ensures num == base * (num / base) + num % base && 0 <= num % base < base
    ensures num >= base ==> num / base >= 1
  {
  }

  lemma QuotientDecreases(num: nat, base: nat)
    requires base >= 2 && num >= base
    ensures num / base < num
  {
    var q, r := num / base, num % base;
    QuotientRemainder(num, base);
    hide *;
    assert (base - 2) * q >= 0;
    assert base * q == (base - 2) * q + 2 * q;
  }

  /** The bare digits. */
  function DigitsOf(num: nat, base: nat): (r: string)
    requires 2 <= base <= 16
    ensures |r| >= 1 && forall k :: 0 <= k < |r| ==> r[k] != NUL
  {
    if num >= base then
      QuotientDecreases(num, base);
      DigitsOf(num / base, base) + [DIGITS[num % base]]
    else [DIGITS[num]]
  }

  lemma PadLength(width: int, padc: char)
    ensures |Pad(width, padc)| == if width > 0 then width else 0
  {
  }

  lemma PaddedStep(rest: string, c: char, width: int, padc: char)
    ensures Pad(width - 1 - |rest|, padc) + rest + [c] == Pad(width - |rest + [c]|, padc) + (rest + [c])
  {
  }

  lemma Unrolled(num: nat, base: nat, width: int, padc: char)
    requires 2 <= base <= 16
    ensures num >= base ==>
              && num / base < num && num % base < 16
              && PrintNum(num, base, width, padc) == PrintNum(num / base, base, width - 1, padc) + [DIGITS[num % base]]
              && DigitsOf(num, base) == DigitsOf(num / base, base) + [DIGITS[num % base]]
    ensures num < base ==> PrintNum(num, base, width, padc) == Pad(width - 1, padc) + [DIGITS[num]] && DigitsOf(num, base) == [DIGITS[num]]
  {
    if num >= base {
      QuotientDecreases(num, base);
    } else {
      SmallMod(num, base);
    }
  }

  /** printnum emits the digits, padded on the left to max(width, number of digits) characters. */
  lemma {:induction false} PrintNumIsPadded(num: nat, base: nat, width: int, padc: char)
    requires 2 <= base <= 16
    ensures PrintNum(num, base, width, padc) == Pad(width - |DigitsOf(num, base)|, padc) + DigitsOf(num, base)
    ensures |PrintNum(num, base, width, padc)| == if width > |DigitsOf(num, base)| then width else |DigitsOf(num, base)|
    decreases num
  {
    hide Pad, PrintNum, DigitsOf;
    PadLength(width - |DigitsOf(num, base)|, padc);
    Unrolled(num, base, width, padc);
    if num >= base {
      var q, c := num / base, DIGITS[num % base];
      PrintNumIsPadded(q, base, width - 1, padc);
      PaddedStep(DigitsOf(q, base), c, width, padc);
    }
  }

  lemma SmallMod(num: nat, base: nat)
    requires num < base
    ensures num % base == num
  {
  }

  // -------------------------------------------------------------------- strtol

  /** The digit a letter or figure stands for. */
  function DigitValue(c: char): nat {
    if '0' <= c <= '9' then c as int - '0' as int
    else if 'a' <= c <= 'z' then c as int - 'a' as int + 10
    else if 'A' <= c <= 'Z' then c as int - 'A' as int + 10
    else 0
  }

  predicate IsDigit(c: char, base: nat) {
    ('0' <= c <= '9' || 'a' <= c <= 'z' || 'A' <= c <= 'Z') && DigitValue(c) < base
  }

  /** 32-bit long. */
  function Wrap(x: int): int { (x + 0x8000_0000) % 0x1_0000_0000 - 0x8000_0000 }

  predicate Blank(c: char) { c == ' ' || c == '\t' }

  function SkipBlanks(s: string, i: nat): (r: nat)
    requires i <= |s|
    ensures i <= r <= |s| && (r < |s| ==> !Blank(s[r])) && forall k :: i <= k < r ==> Blank(s[k])
    decreases |s| - i
  {
    if i < |s| && Blank(s[i]) then SkipBlanks(s, i + 1) else i
  }

  function SkipDigits(s: string, i: nat, base: nat): (r: nat)
    requires i <= |s|
    ensures i <= r <= |s| && (r < |s| ==> !IsDigit(s[r], base)) && forall k :: i <= k < r ==> IsDigit(s[k], base)
    decreases |s| - i
  {
    if i < |s| && IsDigit(s[i], base) then SkipDigits(s, i + 1, base) else i
  }

  /** The number a digit string denotes, most significant digit first. */
  function ValueOf(t: string, base: nat): int {
    if t == "" then 0 else ValueOf(t[..|t| - 1], base) * base + DigitValue(t[|t| - 1])
  }

  /** A C string: it ends in its only NUL. */
  predicate CString(s: string) { |s| > 0 && s[|s| - 1] == NUL && forall k :: 0 <= k < |s| - 1 ==> s[k] != NUL }

  /** Where the digits start, whether a minus sign was read, and the base in force. */
  function Prefix(s: string, base: nat): (r: (nat, bool, nat))
    requires CString(s)
    ensures r.0 < |s|
  {
    var i := SkipBlanks(s, 0);
    var neg := s[i] == '-';
    var j := if s[i] == '+' || s[i] == '-' then i + 1 else i;
    if (base == 0 || base == 16) && s[j] == '0' && s[j + 1] == 'x' then (j + 2, neg, 16)
    else if base == 0 && s[j] == '0' then (j + 1, neg, 8)
    else if base == 0 then (j, neg, 10)
    else (j, neg, base)
  }

  /** strtol: the value, in 32-bit arithmetic, and *endptr. */
  function Strtol(s: string, base: nat): (r: (int, nat))
    requires CString(s)
  {
    var (start, neg, b) := Prefix(s, base);
    var end := SkipDigits(s, start, b);
    var val := Wrap(ValueOf(s[start..end], b));
    (if neg then Wrap(-val) else val, end)
  }

  lemma WrapStep(x: int, base: nat, d: nat)
    ensures Wrap(Wrap(x) * base + d) == Wrap(x * base + d)
  {
    var k := (x + 0x8000_0000) / 0x1_0000_0000;
    assert Wrap(x) == x - 0x1_0000_0000 * k;
    assert Wrap(x) * base + d == x * base + d - 0x1_0000_0000 * (k * base);
    WrapShift(x * base + d, k * base);
  }

  lemma WrapShift(y: int, k: int)
    ensures Wrap(y - 0x1_0000_0000 * k) == Wrap(y)
  {
  }

  method StrToL(s: string, base0: nat) returns (r: int, end: nat)
    requires CString(s)
    ensures (r, end) == Strtol(s, base0)
  {
    hide SkipDigits, ValueOf, Wrap, DigitValue;
    var i, neg, base := 0, false, base0;
    while s[i] == ' ' || s[i] == '\t'
      invariant i < |s| && SkipBlanks(s, i) == SkipBlanks(s, 0)
      decreases |s| - i
    {
      i := i + 1;
    }
    if s[i] == '+' {
      i := i + 1;
    } else if s[i] == '-' {
      i, neg := i + 1, true;
    }
    if (base == 0 || base == 16) && s[i] == '0' && s[i + 1] == 'x' {
      i, base := i + 2, 16;
    } else if base == 0 && s[i] == '0' {
      i, base := i + 1, 8;
    } else if base == 0 {
      base := 10;
    }
    assert (i, neg, base) == Prefix(s, base0);
    hide Prefix, SkipBlanks, CString;
    var val;
    val, end := ReadDigits(s, i, base);
    r := if neg then Wrap(-val) else val;
  }

  /** The digit loop. */
  method ReadDigits(s: string, start: nat, base: nat) returns (val: int, end: nat)
    requires CString(s) && start < |s|
    ensures end == SkipDigits(s, start, base) && val == Wrap(ValueOf(s[start..end], base))
  {
    hide Wrap;
    val, end := 0, start;
    assert s[start..start] == "";
    assert Wrap(0) == 0 by { WrapSmall(0); }
    while IsDigit(s[end], base)
      invariant start <= end < |s| && SkipDigits(s, end, base) == SkipDigits(s, start, base)
      invariant val == Wrap(ValueOf(s[start..end], base))
      decreases |s| - end
    {
      WrapStep(ValueOf(s[start..end], base), base, DigitValue(s[end]));
      assert s[start..end + 1][..end - start] == s[start..end];
      val := Wrap(val * base + DigitValue(s[end]));
      end := end + 1;
    }
  }

  lemma WrapSmall(x: int)
    requires -0x8000_0000 <= x < 0x8000_0000
    ensures Wrap(x) == x
  {
  }

  // ---------------------------------------------------------------- round trip

  /** What is known of every character printnum emits as a digit. */
  predicate Printable(c: char, base: nat) {
    IsDigit(c, base) && !Blank(c) && c != '+' && c != '-' && c != 'x' && c != NUL
  }

  predicate AllPrintable(t: string, base: nat) { forall k :: 0 <= k < |t| ==> Printable(t[k], base) }

  lemma DigitChars(d: nat, base: nat)
    requires d < base <= 16
    ensures Printable(DIGITS[d], base) && DigitValue(DIGITS[d]) == d
  {
  }

  lemma DivideBack(num: nat, base: nat)
    requires base > 0
    ensures num / base * base + num % base == num
  {
  }

  /** The printed digits are digits of the base and denote the number. */
  lemma {:induction false} DigitsDenote(num: nat, base: nat)
    requires 2 <= base <= 16
    ensures ValueOf(DigitsOf(num, base), base) == num && AllPrintable(DigitsOf(num, base), base)
    decreases num
  {
    hide Printable, DigitValue;
    if num >= base {
      QuotientDecreases(num, base);
      DigitsDenote(num / base, base);
      DigitChars(num % base, base);
      DivideBack(num, base);
      var t := DigitsOf(num / base, base);
      assert (t + [DIGITS[num % base]])[..|t|] == t;
    } else {
      DigitChars(num, base);
      assert [DIGITS[num]][..0] == "";
    }
  }

  /** Leading zeros do not change the value. */
  lemma {:induction false} LeadingZeros(k: nat, t: string, base: nat)
    ensures ValueOf(seq(k, _ => '0') + t, base) == ValueOf(t, base)
    decreases k + |t|
  {
    var z := seq(k, _ => '0');
    if t != "" {
      LeadingZeros(k, t[..|t| - 1], base);
      assert (z + t)[..|z + t| - 1] == z + t[..|t| - 1];
    } else if k > 0 {
      LeadingZeros(k - 1, "", base);
      assert (z + t)[..k - 1] == seq(k - 1, _ => '0') + "";
    }
  }

  /** Reading a sign, some spaces or zeros, and digits: where strtol's digit loop starts and stops. */
  lemma ReadBack(blanks: nat, sign: string, digits: string, base: nat)
    requires base == 8 || base == 10 || base == 16
    requires sign == "" || sign == "-"
    requires |digits| >= 1 && AllPrintable(digits, base)
    ensures var s := seq(blanks, _ => ' ') + sign + digits + [NUL];
            var val := Wrap(ValueOf(digits, base));
            CString(s) && Strtol(s, base) == (if sign == "-" then Wrap(-val) else val, |s| - 1)
  {
    hide Wrap, ValueOf, Strtol, Printable;
    var s := seq(blanks, _ => ' ') + sign + digits + [NUL];
    var start := blanks + |sign|;
    assert forall k :: start <= k < |s| - 1 ==> s[k] == digits[k - start];
    assert s[start..|s| - 1] == digits;
    assert AllPrintable(s[start..|s| - 1], base);
    if sign == "" {
      assert Printable(s[start], base);
    }
    ReadAt(s, blanks, sign == "-", base);
  }

  lemma ReadAt(s: string, blanks: nat, neg: bool, base: nat)
    requires base == 8 || base == 10 || base == 16
    requires |s| > 0 && s[|s| - 1] == NUL && blanks < |s| - 1 && forall k :: 0 <= k < blanks ==> s[k] == ' '
    requires if neg then s[blanks] == '-' && blanks + 1 < |s| - 1 else Printable(s[blanks], base)
    requires AllPrintable(s[if neg then blanks + 1 else blanks..|s| - 1], base)
    ensures var start := if neg then blanks + 1 else blanks;
            var val := Wrap(ValueOf(s[start..|s| - 1], base));
            CString(s) && Strtol(s, base) == (if neg then Wrap(-val) else val, |s| - 1)
  {
    var start := if neg then blanks + 1 else blanks;
    var digits := s[start..|s| - 1];
    forall k | start <= k < |s| - 1 ensures Printable(s[k], base) {
      assert s[k] == digits[k - start] && Printable(digits[k - start], base);
    }
    hide Wrap, ValueOf, DigitValue;
    BlanksEnd(s, 0, blanks);
    DigitsEnd(s, start, |s| - 1, base);
    assert Printable(s[start], base) && s[start + 1] != 'x';
    assert Prefix(s, base) == (start, neg, base);
  }

  lemma {:induction false} BlanksEnd(s: string, i: nat, end: nat)
    requires i <= end < |s| && !Blank(s[end]) && forall k :: i <= k < end ==> Blank(s[k])
    ensures SkipBlanks(s, i) == end
    decreases end - i
  {
    if i < end {
      BlanksEnd(s, i + 1, end);
    }
  }

  lemma {:induction false} DigitsEnd(s: string, i: nat, end: nat, base: nat)
    requires i <= end < |s| && !IsDigit(s[end], base) && forall k :: i <= k < end ==> IsDigit(s[k], base)
    ensures SkipDigits(s, i, base) == end
    decreases end - i
  {
    if i < end {
      DigitsEnd(s, i + 1, end, base);
    }
  }

  /**
   strtol reads back what printnum prints, in the same base 8, 10 or 16, padded with spaces or zeros to any width,
   for every number below 2^31; and it stops exactly at the end of the output.
   */
  lemma PrintThenParse(num: nat, base: nat, width: int, padc: char)
    requires (base == 8 || base == 10 || base == 16) && (padc == ' ' || padc == '0') && num < 0x8000_0000
    ensures var out := PrintNum(num, base, width, padc);
            CString(out + [NUL]) && Strtol(out + [NUL], base) == (num, |out|)
  {
    hide Strtol, ValueOf, DigitsOf, PrintNum, Printable, Wrap;
    var digits := DigitsOf(num, base);
    PrintNumIsPadded(num, base, width, padc);
    DigitsDenote(num, base);
    WrapSmall(num);
    var pads: nat := if width > |digits| then width - |digits| else 0;
    var out := PrintNum(num, base, width, padc);
    if padc == ' ' {
      ReadBack(pads, "", digits, base);
      assert out + [NUL] == seq(pads, _ => ' ') + "" + digits + [NUL];
    } else {
      ZeroPadded(pads, digits, base);
      var all := seq(pads, _ => '0') + digits;
      ReadBack(0, "", all, base);
      assert out + [NUL] == seq(0, _ => ' ') + "" + all + [NUL];
    }
  }

  lemma ZeroPadded(pads: nat, digits: string, base: nat)
    requires AllPrintable(digits, base) && 2 <= base <= 16
    ensures var all := seq(pads, _ => '0') + digits;
            AllPrintable(all, base) && ValueOf(all, base) == ValueOf(digits, base)
  {
    LeadingZeros(pads, digits, base);
    DigitChars(0, base);
    hide Printable;
  }

  /**
   The %d path for a negative number, -2^31 included, prints a minus sign and then pads.  strtol reads it back
   if and only if no space lies between the sign and the digits.
   */
  lemma NegativeRoundTrip(num: nat, width: int, padc: char)
    requires (padc == ' ' || padc == '0') && 0 < num <= 0x8000_0000
    ensures var out := "-" + PrintNum(num, 10, width, padc);
            CString(out + [NUL]) &&
            (Strtol(out + [NUL], 10) == (0 - num, |out|) <==> padc == '0' || width <= |DigitsOf(num, 10)|)
  {
    hide Strtol, ValueOf, DigitsOf, PrintNum, Wrap;
    var digits := DigitsOf(num, 10);
    PrintNumIsPadded(num, 10, width, padc);
    DigitsDenote(num, 10);
    WrapNegated(num);
    var pads: nat := if width > |digits| then width - |digits| else 0;
    var out := "-" + PrintNum(num, 10, width, padc);
    if padc == '0' || pads == 0 {
      ZeroPadded(pads, digits, 10);
      var all := seq(pads, _ => '0') + digits;
      ReadBack(0, "-", all, 10);
      assert out + [NUL] == seq(0, _ => ' ') + "-" + all + [NUL];
    } else {
      SpaceAfterSign(out + [NUL], pads, digits);
    }
  }

  lemma WrapNegated(num: nat)
    requires num <= 0x8000_0000
    ensures Wrap(-Wrap(num)) == 0 - num
  {
  }

  lemma SpaceAfterSign(s: string, pads: nat, digits: string)
    requires pads > 0 && s == "-" + (seq(pads, _ => ' ') + digits) + [NUL] && forall k :: 0 <= k < |digits| ==> digits[k] != NUL
    ensures CString(s) && Strtol(s, 10) == (0, 1)
  {
    assert s[0] == '-' && s[1] == ' ';
    assert s[1..1] == "";
    WrapSmall(0);
  }
}
