/**
 What the conversions of vprintfmt (lib/printfmt.c:84-249) print, stated by reading the output back or by the
 characters themselves.
 */
module PrintfLaws {
  import opened Mmu
  import opened Numbers
  import opened Numerals
  import opened Printf

  // -------------------------------------------------------------- plain escapes

  predicate IsConversion(c: char) {
    c == 'c' || c == 'e' || c == 's' || c == 'd' || c == 'u' || c == 'o' || c == 'p' || c == 'x'
  }

  /** What the escape made of these flag characters and this conversion prints. */
  function Shows(flags: string, c: char, args: seq<Arg>): string
    requires NoNul(flags) && c != NUL
  {
    Stream("%" + flags + [c, NUL], 0, args, 0)
  }

  lemma EscapeFormat(flags: string, c: char)
    requires NoNul(flags) && c != NUL
    ensures var fmt := "%" + flags + [c, NUL]; CString(fmt) && fmt[0] == '%' && fmt[1 + |flags|] == c && |fmt| == 3 + |flags|
  {
    var fmt := "%" + flags + [c, NUL];
    forall k | 0 <= k < |fmt| - 1 ensures fmt[k] != NUL {
      if 1 <= k <= |flags| {
        assert fmt[k] == flags[k - 1];
      }
    }
  }

  /** If the flag characters leave the flags fl and use up k arguments, the escape prints the conversion under fl. */
  lemma ShowsConversion(flags: string, c: char, args: seq<Arg>, fl: Flags, k: nat)
    requires NoNul(flags) && IsConversion(c)
    requires FlagsEnd("%" + flags + [c, NUL], 1, NoFlags, args, 0) == (fl, 1 + |flags|, k)
    requires Convert(c, fl, args, k).Prints?
    ensures Shows(flags, c, args) == Convert(c, fl, args, k).text
  {
    hide Convert, FlagsEnd, Stream, Escape, ReadFlag, CString, NoNul;
    var fmt := "%" + flags + [c, NUL];
    EscapeFormat(flags, c);
    AtPercent(fmt, 0, args, 0);
    EscapeIsItsEnd(fmt, 0, 1, NoFlags, args, 0);
    AtEnd(fmt, |fmt| - 1, args, k + Convert(c, fl, args, k).takes);
  }

  lemma AtEnd(fmt: string, i: nat, args: seq<Arg>, k: nat)
    requires CString(fmt) && i == |fmt| - 1
    ensures Stream(fmt, i, args, k) == ""
  {
  }

  lemma Unflagged(c: char, args: seq<Arg>)
    requires IsConversion(c) && Convert(c, NoFlags, args, 0).Prints?
    ensures Shows("", c, args) == Convert(c, NoFlags, args, 0).text
  {
    hide Convert;
    var fmt := "%" + "" + [c, NUL];
    assert fmt[1] == c;
    assert ReadFlag(fmt, 1, NoFlags, args, 0) == NotAFlag;
    ShowsConversion("", c, args, NoFlags, 0);
  }

  /** One l, or two. */
  lemma Long(c: char, args: seq<Arg>)
    requires IsConversion(c) && Convert(c, NoFlags.(lflag := 1), args, 0).Prints?
    requires Convert(c, NoFlags.(lflag := 2), args, 0).Prints?
    ensures Shows("l", c, args) == Convert(c, NoFlags.(lflag := 1), args, 0).text
    ensures Shows("ll", c, args) == Convert(c, NoFlags.(lflag := 2), args, 0).text
  {
    hide Convert, Shows, FlagsEnd;
    var f1, f2 := NoFlags.(lflag := 1), NoFlags.(lflag := 2);
    var fmt := "%" + "l" + [c, NUL];
    assert fmt[1] == 'l' && fmt[2] == c;
    LFlag(fmt, 1, NoFlags, args);
    FlagsStep(fmt, 1, NoFlags, args, 0);
    EndsFlags(fmt, 2, f1, args, 0);
    ShowsConversion("l", c, args, f1, 0);
    var fmt2 := "%" + "ll" + [c, NUL];
    assert fmt2[1] == 'l' && fmt2[2] == 'l' && fmt2[3] == c;
    LFlag(fmt2, 1, NoFlags, args);
    FlagsStep(fmt2, 1, NoFlags, args, 0);
    LFlag(fmt2, 2, f1, args);
    FlagsStep(fmt2, 2, f1, args, 0);
    EndsFlags(fmt2, 3, f2, args, 0);
    ShowsConversion("ll", c, args, f2, 0);
  }

  lemma LFlag(fmt: string, j: nat, fl: Flags, args: seq<Arg>)
    requires CString(fmt) && j + 1 < |fmt| && fmt[j] == 'l'
    ensures ReadFlag(fmt, j, fl, args, 0) == Continue(fl.(lflag := fl.lflag + 1), j + 1, 0)
  {
  }

  lemma ConvertText(fl: Flags, args: seq<Arg>, k: nat)
    ensures Convert('s', fl, args, k) == Prints(Text(StrArg(args, k), fl), 1)
  {
    hide Text, ErrorText, Decimal, PrintNum;
  }

  lemma ConvertDecimal(fl: Flags, args: seq<Arg>, k: nat)
    ensures Convert('d', fl, args, k) == Prints(Decimal(GetInt(args, k, fl.lflag), fl), 1)
  {
    hide Text, ErrorText, Decimal, PrintNum;
  }

  lemma ConvertError(fl: Flags, args: seq<Arg>, k: nat)
    ensures Convert('e', fl, args, k) == Prints(ErrorText(GetInt(args, k, 0)), 1)
  {
    hide Text, ErrorText, Decimal, PrintNum;
  }

  lemma ConvertUnsigned(c: char, base: nat, fl: Flags, args: seq<Arg>, k: nat)
    requires InBase(c, base)
    ensures Convert(c, fl, args, k) == Prints(PrintNum(GetUint(args, k, fl.lflag), base, fl.width, fl.padc), 1)
  {
    hide Text, ErrorText, Decimal, PrintNum, GetUint;
  }

  lemma ConvertPointer(fl: Flags, args: seq<Arg>, k: nat)
    ensures Convert('p', fl, args, k) == Prints("0x" + PrintNum(GetUint(args, k, 0), 16, fl.width, fl.padc), 1)
  {
    hide Text, ErrorText, Decimal, PrintNum;
  }

  // -------------------------------------------------------------------- numbers

  /** The conversions that print an unsigned number, and their bases. */
  predicate InBase(c: char, base: nat) { (c == 'x' && base == 16) || (c == 'o' && base == 8) || (c == 'u' && base == 10) }

  lemma BareNumber(num: nat, base: nat)
    requires 2 <= base <= 16
    ensures PrintNum(num, base, -1, ' ') == DigitsOf(num, base)
  {
    hide DigitsOf, PrintNum;
    PrintNumIsPadded(num, base, -1, ' ');
  }

  /** %x, %o and %u print the argument modulo 2^32, also with one l, and with ll modulo 2^64, in base 16, 8 and 10. */
  lemma UnsignedDenotes(c: char, base: nat, v: int)
    requires InBase(c, base)
    ensures ValueOf(Shows("", c, [Num(v)]), base) == v % TWO32
    ensures Shows("l", c, [Num(v)]) == Shows("", c, [Num(v)])
    ensures ValueOf(Shows("ll", c, [Num(v)]), base) == v % 0x1_0000_0000_0000_0000
    ensures AllDigits(Shows("", c, [Num(v)]), base) && AllDigits(Shows("ll", c, [Num(v)]), base)
  {
    hide DigitsOf, ValueOf, PrintNum, Shows, IsDigit, Convert;
    ConvertUnsigned(c, base, NoFlags, [Num(v)], 0);
    ConvertUnsigned(c, base, NoFlags.(lflag := 1), [Num(v)], 0);
    ConvertUnsigned(c, base, NoFlags.(lflag := 2), [Num(v)], 0);
    Unflagged(c, [Num(v)]);
    Long(c, [Num(v)]);
    BareNumber(v % TWO32, base);
    BareNumber(v % 0x1_0000_0000_0000_0000, base);
    DigitsDenote(v % TWO32, base);
    DigitsDenote(v % 0x1_0000_0000_0000_0000, base);
    PrintableDigits(DigitsOf(v % TWO32, base), base);
    PrintableDigits(DigitsOf(v % 0x1_0000_0000_0000_0000, base), base);
  }

  /** What %x, %o and %u print of a number below 2^31, strtol reads back in the same base. */
  lemma UnsignedReadsBack(c: char, base: nat, v: nat)
    requires InBase(c, base) && v < 0x8000_0000
    ensures var out := Shows("", c, [Num(v)]);
            CString(out + [NUL]) && Strtol(out + [NUL], base) == (v, |out|)
  {
    hide DigitsOf, ValueOf, PrintNum, Shows, Strtol, Prefix, Convert;
    ConvertUnsigned(c, base, NoFlags, [Num(v)], 0);
    Unflagged(c, [Num(v)]);
    PrintThenParse(v, base, -1, ' ');
  }

  lemma SignedIsWrap(v: int)
    ensures Signed(v, TWO32) == Wrap(v) && -0x8000_0000 <= Wrap(v) < 0x8000_0000
  {
  }

  lemma Signed64(v: int)
    requires -0x8000_0000_0000_0000 <= v < 0x8000_0000_0000_0000
    ensures Signed(v, 0x1_0000_0000_0000_0000) == v
  {
  }

  lemma IntIsWrap(v: int)
    ensures GetInt([Num(v)], 0, 0) == Wrap(v) && -0x8000_0000 <= Wrap(v) < 0x8000_0000
    ensures -0x8000_0000 <= v < 0x8000_0000 ==> Wrap(v) == v
  {
    SignedIsWrap(v);
    if -0x8000_0000 <= v < 0x8000_0000 {
      WrapSmall(v);
    }
    hide Signed, Wrap;
  }

  lemma ShowsDecimal(v: int)
    ensures Shows("", 'd', [Num(v)]) == Decimal(Wrap(v), NoFlags)
  {
    hide Decimal, Shows, Convert, Wrap, GetInt;
    IntIsWrap(v);
    ConvertDecimal(NoFlags, [Num(v)], 0);
    Unflagged('d', [Num(v)]);
  }

  /** What %d prints of any number, taken as a 32-bit int, strtol reads back in base 10. */
  lemma DecimalReadsBack(v: int)
    ensures var out := Shows("", 'd', [Num(v)]);
            CString(out + [NUL]) && Strtol(out + [NUL], 10) == (Wrap(v), |out|)
    ensures -0x8000_0000 <= v < 0x8000_0000 ==> Wrap(v) == v
  {
    hide DigitsOf, ValueOf, PrintNum, Shows, Strtol, Prefix, GetInt, Wrap, CString;
    IntIsWrap(v);
    ShowsDecimal(v);
    var x := Wrap(v);
    if x < 0 {
      NegativeRoundTrip(0 - x, -1, ' ');
    } else {
      PrintThenParse(x, 10, -1, ' ');
    }
  }

  /** %lld prints every 64-bit number: a minus sign if it is negative, and the digits of its magnitude. */
  lemma LongDecimalDenotes(v: int)
    requires -0x8000_0000_0000_0000 <= v < 0x8000_0000_0000_0000
    ensures var out := Shows("ll", 'd', [Num(v)]);
            if v < 0 then out != "" && out[0] == '-' && AllDigits(out[1..], 10) && ValueOf(out[1..], 10) == 0 - v
            else AllDigits(out, 10) && ValueOf(out, 10) == v
  {
    hide DigitsOf, ValueOf, PrintNum, Shows, Signed, IsDigit, Convert;
    ConvertDecimal(NoFlags.(lflag := 1), [Num(v)], 0);
    ConvertDecimal(NoFlags.(lflag := 2), [Num(v)], 0);
    Long('d', [Num(v)]);
    Signed64(v);
    var magnitude := if v < 0 then 0 - v else v;
    BareNumber(magnitude, 10);
    DigitsDenote(magnitude, 10);
    PrintableDigits(DigitsOf(magnitude, 10), 10);
    if v < 0 {
      assert ("-" + DigitsOf(magnitude, 10))[1..] == DigitsOf(magnitude, 10);
    }
  }

  /** %p prints "0x" and the 32-bit value, which strtol reads back in base 16, or in base 0. */
  lemma PointerReadsBack(v: nat, base0: nat)
    requires v < TWO32 && (base0 == 0 || base0 == 16)
    ensures var out := Shows("", 'p', [Num(v)]);
            CString(out + [NUL]) && Strtol(out + [NUL], base0) == (Wrap(v), |out|)
  {
    hide DigitsOf, ValueOf, PrintNum, Shows, Strtol, Prefix, IsDigit, Convert;
    ConvertPointer(NoFlags, [Num(v)], 0);
    Unflagged('p', [Num(v)]);
    BareNumber(v, 16);
    DigitsDenote(v, 16);
    PrintableDigits(DigitsOf(v, 16), 16);
    ReadsHex("", DigitsOf(v, 16), base0);
    assert "" + "0x" + DigitsOf(v, 16) == "0x" + DigitsOf(v, 16);
  }

  // ---------------------------------------------------------- characters, text

  /** %c prints the one character. */
  lemma CharacterPrints(v: nat)
    requires v < 256
    ensures Shows("", 'c', [Num(v)]) == [v as char]
  {
    hide Shows;
    Unflagged('c', [Num(v)]);
  }

  /** %s prints the string, or "(null)" for a null pointer. */
  lemma StringPrints(t: string)
    requires NoNul(t)
    ensures Shows("", 's', [Str(t)]) == t && Shows("", 's', [NullStr]) == "(null)"
  {
    hide Shows, Convert;
    ConvertText(NoFlags, [Str(t)], 0);
    ConvertText(NoFlags, [NullStr], 0);
    Unflagged('s', [Str(t)]);
    Unflagged('s', [NullStr]);
    UpToEnd(t);
    BareText(t);
    BareText("(null)");
  }

  lemma BareText(t: string)
    ensures Text(t, NoFlags) == t
  {
  }

  lemma {:induction false} UpToEnd(t: string)
    requires NoNul(t)
    ensures UpToNul(t) == t
  {
    if t != "" {
      assert NoNul(t[1..]);
      UpToEnd(t[1..]);
    }
  }

  /** With # a string shows its printable characters, and a question mark for each other. */
  lemma AlternatePrints(t: string)
    requires NoNul(t)
    ensures var out := Shows("#", 's', [Str(t)]);
            |out| == |t| && forall i :: 0 <= i < |t| ==> out[i] == if ' ' <= t[i] <= '~' then t[i] else '?'
  {
    hide Shows, Convert;
    var fmt, fl := "%" + "#" + ['s', NUL], NoFlags.(alt := true);
    assert fmt[1] == '#' && fmt[2] == 's';
    assert ReadFlag(fmt, 1, NoFlags, [Str(t)], 0) == Continue(fl, 2, 0);
    assert ReadFlag(fmt, 2, fl, [Str(t)], 0) == NotAFlag;
    hide ReadFlag;
    ConvertText(fl, [Str(t)], 0);
    ShowsConversion("#", 's', [Str(t)], fl, 0);
    UpToEnd(t);
  }

  // ---------------------------------------------------------- width, precision

  /** The figures of a number without leading zero. */
  lemma {:induction false} FiguresOf(n: nat)
    ensures var d := DigitsOf(n, 10);
            && (forall k :: 0 <= k < |d| ==> Figure(d[k])) && (n > 0 ==> d[0] != '0') && ValueOf(d, 10) == n
    decreases n
  {
    DigitsDenote(n, 10);
    if n >= 10 {
      FiguresOf(n / 10);
    }
  }

  lemma {:induction false} ReadsWidth(fmt: string, j: nat, d: string, k: nat)
    requires CString(fmt) && k <= |d| && j + |d| < |fmt| && fmt[j..j + |d|] == d && !Figure(fmt[j + |d|])
    requires forall i :: 0 <= i < |d| ==> Figure(d[i])
    ensures ReadWidth(fmt, j + k, ValueOf(d[..k], 10)) == (ValueOf(d, 10), j + |d|)
    decreases |d| - k
  {
    if k < |d| {
      assert fmt[j + k] == fmt[j..j + |d|][k] == d[k];
      assert d[..k + 1][..k] == d[..k];
      ReadsWidth(fmt, j, d, k + 1);
    } else {
      assert d[..k] == d;
    }
  }

  /** A number n > 0 at index j is read as a width or precision. */
  lemma ReadsNumber(fmt: string, j: nat, n: nat, fl: Flags, args: seq<Arg>, k: nat)
    requires CString(fmt) && n > 0 && j + |DigitsOf(n, 10)| < |fmt| && fmt[j..j + |DigitsOf(n, 10)|] == DigitsOf(n, 10)
    requires !Figure(fmt[j + |DigitsOf(n, 10)|])
    ensures ReadFlag(fmt, j, fl, args, k) == Continue(SetPrecision(fl, n), j + |DigitsOf(n, 10)|, k)
  {
    hide DigitsOf, ReadWidth, SetPrecision, ReadFlag, CString;
    var d := DigitsOf(n, 10);
    FiguresOf(n);
    ReadsWidth(fmt, j, d, 0);
    assert d[..0] == "" && fmt[j] == fmt[j..j + |d|][0] == d[0];
    NumberFlag(fmt, j, fl, args, k);
    assert ValueOf("", 10) == 0;
  }

  lemma NumberFlag(fmt: string, j: nat, fl: Flags, args: seq<Arg>, k: nat)
    requires CString(fmt) && j < |fmt| && '1' <= fmt[j] <= '9'
    ensures var (n, next) := ReadWidth(fmt, j, 0); ReadFlag(fmt, j, fl, args, k) == Continue(SetPrecision(fl, n), next, k)
  {
    hide ReadWidth, SetPrecision;
  }

  predicate PadFlag(f: string) { f == "" || f == "-" || f == "0" }

  function PadChar(f: string): char { if f == "" then ' ' else f[0] }

  /** An optional '-' or '0', then a width. */
  lemma ReadsField(fmt: string, f: string, w: nat, args: seq<Arg>)
    requires CString(fmt) && PadFlag(f) && w > 0 && 1 + |f| + |DigitsOf(w, 10)| < |fmt|
    requires fmt[1..1 + |f|] == f && fmt[1 + |f|..1 + |f| + |DigitsOf(w, 10)|] == DigitsOf(w, 10)
    requires !Figure(fmt[1 + |f| + |DigitsOf(w, 10)|])
    ensures FlagsEnd(fmt, 1, NoFlags, args, 0) ==
            FlagsEnd(fmt, 1 + |f| + |DigitsOf(w, 10)|, Flags(PadChar(f), w, -1, 0, false), args, 0)
  {
    var j, fl := 1 + |f|, NoFlags.(padc := PadChar(f));
    if f != "" {
      assert fmt[1] == fmt[1..1 + |f|][0] == f[0];
      assert ReadFlag(fmt, 1, NoFlags, args, 0) == Continue(fl, 2, 0);
    }
    hide ReadFlag, DigitsOf;
    ReadsNumber(fmt, j, w, fl, args, 0);
    assert SetPrecision(fl, w) == Flags(PadChar(f), w, -1, 0, false);
  }

  /** The parts of a format made of two flags and a rest. */
  lemma FieldFormat(f: string, d: string, rest: string)
    requires NoNul(f + d) && CString(rest)
    ensures var fmt := "%" + (f + d) + rest;
            && CString(fmt) && fmt[1..1 + |f|] == f && fmt[1 + |f|..1 + |f| + |d|] == d && fmt[1 + |f| + |d|] == rest[0]
  {
    var fmt := "%" + (f + d) + rest;
    forall k | 0 <= k < |fmt| - 1 ensures fmt[k] != NUL {
      if 1 <= k < 1 + |f + d| {
        assert fmt[k] == (f + d)[k - 1];
      }
    }
  }

  /**
   %x, %o and %u in a field of width w: padded on the left with spaces, zeros after '0' (and minus signs after
   '-', which is meant for strings) to at least w characters.
   */
  lemma NumberField(f: string, w: nat, c: char, base: nat, v: nat)
    requires PadFlag(f) && w > 0 && InBase(c, base) && v < 0x8000_0000
    ensures var out, digits := Shows(f + DigitsOf(w, 10), c, [Num(v)]), DigitsOf(v, base);
            && out == Pad(w - |digits|, PadChar(f)) + digits
            && (f != "-" ==> CString(out + [NUL]) && Strtol(out + [NUL], base) == (v, |out|))
  {
    hide DigitsOf, PrintNum, Strtol, ValueOf, Shows, Convert, Prefix, FlagsEnd, CString;
    var d, args, fl := DigitsOf(w, 10), [Num(v)], Flags(PadChar(f), w, -1, 0, false);
    var fmt := "%" + (f + d) + [c, NUL];
    FieldFormat(f, d, [c, NUL]);
    ReadsField(fmt, f, w, args);
    EndsFlags(fmt, 1 + |f + d|, fl, args, 0);
    ConvertUnsigned(c, base, fl, args, 0);
    ShowsConversion(f + d, c, args, fl, 0);
    PrintNumIsPadded(v, base, w, PadChar(f));
    if f != "-" {
      PrintThenParse(v, base, w, PadChar(f));
    }
  }

  lemma EndsFlags(fmt: string, j: nat, fl: Flags, args: seq<Arg>, k: nat)
    requires CString(fmt) && j < |fmt| && IsConversion(fmt[j])
    ensures FlagsEnd(fmt, j, fl, args, k) == (fl, j, k)
  {
  }

  /** A width and a precision as they are written in a format. */
  function WidthPoint(f: string, w: nat, p: nat): (r: string)
    requires PadFlag(f)
    ensures NoNul(r)
  {
    f + DigitsOf(w, 10) + "." + DigitsOf(p, 10)
  }

  /** %w.ps: the first p characters, in a field of width w: to the right, to the left after '-', zero-filled after '0'. */
  lemma TextField(f: string, w: nat, p: nat, t: string)
    requires PadFlag(f) && w > 0 && 0 < p < 0x8000_0000 && NoNul(t)
    ensures var cut := if p < |t| then t[..p] else t;
            var out := Shows(WidthPoint(f, w, p), 's', [Str(t)]);
            out == if f == "-" then cut + Pad(w - |cut|, ' ') else Pad(w - |cut|, PadChar(f)) + cut
  {
    hide Shows, Convert, FlagsEnd, Text, CString, NoNul, WidthPoint;
    var f2 := Flags(PadChar(f), w, p, 0, false);
    TextFieldFlags(f, w, p, [Str(t)]);
    ConvertText(f2, [Str(t)], 0);
    ShowsConversion(WidthPoint(f, w, p), 's', [Str(t)], f2, 0);
    UpToEnd(t);
    TextIs(t, f2);
  }

  lemma TextFieldFlags(f: string, w: nat, p: nat, args: seq<Arg>)
    requires PadFlag(f) && w > 0 && p > 0
    ensures var fmt := "%" + WidthPoint(f, w, p) + ['s', NUL];
            CString(fmt) &&
            FlagsEnd(fmt, 1, NoFlags, args, 0) == (Flags(PadChar(f), w, p, 0, false), 1 + |WidthPoint(f, w, p)|, 0)
  {
    hide DigitsOf, ReadFlag, FlagsEnd, CString, NoNul;
    var d, e := DigitsOf(w, 10), DigitsOf(p, 10);
    var flags := WidthPoint(f, w, p);
    assert flags == f + d + "." + e;
    hide WidthPoint;
    PointFormat(f, d, e);
    var fmt := "%" + flags + ['s', NUL];
    var j := 1 + |f| + |d|;
    var f1, f2 := Flags(PadChar(f), w, -1, 0, false), Flags(PadChar(f), w, p, 0, false);
    ReadsField(fmt, f, w, args);
    ReadsPoint(fmt, j, f1, args, 0);
    FlagsStep(fmt, j, f1, args, 0);
    ReadsNumber(fmt, j + 1, p, f1, args, 0);
    assert SetPrecision(f1, p) == f2;
    FlagsStep(fmt, j + 1, f1, args, 0);
    EndsFlags(fmt, j + 1 + |e|, f2, args, 0);
  }

  lemma PointFormat(f: string, d: string, e: string)
    requires NoNul(f + d + "." + e)
    ensures var fmt := "%" + (f + d + "." + e) + ['s', NUL];
            var j := 1 + |f| + |d|;
            && CString(fmt) && fmt[1..1 + |f|] == f && fmt[1 + |f|..j] == d && fmt[j] == '.'
            && fmt[j + 1..j + 1 + |e|] == e && fmt[j + 1 + |e|] == 's'
  {
    var fmt := "%" + (f + d + "." + e) + ['s', NUL];
    forall k | 0 <= k < |fmt| - 1 ensures fmt[k] != NUL {
      if 1 <= k < 1 + |f + d + "." + e| {
        assert fmt[k] == (f + d + "." + e)[k - 1];
      }
    }
  }

  /** %.ps: the first p characters, and no padding. */
  lemma PrecisionOnly(p: nat, t: string)
    requires 0 < p < 0x8000_0000 && NoNul(t)
    ensures Shows("." + DigitsOf(p, 10), 's', [Str(t)]) == if p < |t| then t[..p] else t
  {
    hide DigitsOf, Shows, Convert, FlagsEnd, Text, CString;
    var e, args, f1, f2 := DigitsOf(p, 10), [Str(t)], NoFlags.(width := 0), Flags(' ', 0, p, 0, false);
    FieldFormat(".", e, ['s', NUL]);
    var fmt := "%" + ("." + e) + ['s', NUL];
    assert fmt[1] == fmt[1..2][0] == '.';
    assert ReadFlag(fmt, 1, NoFlags, args, 0) == Continue(f1, 2, 0);
    hide ReadFlag;
    FlagsStep(fmt, 1, NoFlags, args, 0);
    ReadsNumber(fmt, 2, p, f1, args, 0);
    assert SetPrecision(f1, p) == f2;
    FlagsStep(fmt, 2, f1, args, 0);
    EndsFlags(fmt, 2 + |e|, f2, args, 0);
    ConvertText(f2, args, 0);
    ShowsConversion("." + e, 's', args, f2, 0);
    UpToEnd(t);
    CutText(t, f2);
  }

  lemma CutText(t: string, fl: Flags)
    requires fl.width == 0 && fl.precision > 0 && !fl.alt && fl.padc == ' '
    ensures Text(t, fl) == if fl.precision < |t| then t[..fl.precision] else t
  {
    assert Shown(Cut(t, fl.precision), false) == Cut(t, fl.precision);
  }

  lemma ReadsPoint(fmt: string, j: nat, fl: Flags, args: seq<Arg>, k: nat)
    requires CString(fmt) && j < |fmt| && fmt[j] == '.' && fl.width >= 0
    ensures ReadFlag(fmt, j, fl, args, k) == Continue(fl, j + 1, k)
  {
  }

  lemma FlagsStep(fmt: string, j: nat, fl: Flags, args: seq<Arg>, k: nat)
    requires CString(fmt) && j < |fmt| && ReadFlag(fmt, j, fl, args, k).Continue?
    ensures var r := ReadFlag(fmt, j, fl, args, k); FlagsEnd(fmt, j, fl, args, k) == FlagsEnd(fmt, r.next, r.fl, args, r.arg)
  {
    hide ReadFlag;
  }

  lemma TextIs(t: string, fl: Flags)
    requires fl.width > 0 && 0 < fl.precision < 0x8000_0000 && !fl.alt
    ensures var cut := if fl.precision < |t| then t[..fl.precision] else t;
            Text(t, fl) == if fl.padc == '-' then cut + Pad(fl.width - |cut|, ' ') else Pad(fl.width - |cut|, fl.padc) + cut
  {
    var cut := Cut(t, fl.precision);
    assert Shown(cut, false) == cut;
    assert fl.precision % TWO32 == fl.precision;
    assert Min(|t|, fl.precision) == |cut|;
  }

  /** A width given by '*' is taken from the arguments. */
  lemma StarWidth(w: nat, t: string)
    requires 0 < w < 0x8000_0000 && NoNul(t) && |t| < TWO32 - 1
    ensures Shows("*", 's', [Num(w), Str(t)]) == Pad(w - |t|, ' ') + t
  {
    hide Shows, Convert, Text;
    var fl := Flags(' ', w, -1, 0, false);
    var args := [Num(w), Str(t)];
    var fmt := "%" + "*" + ['s', NUL];
    assert fmt[1] == '*' && fmt[2] == 's';
    StarFlag(fmt, w, args);
    hide ReadFlag;
    EndsFlags(fmt, 2, fl, args, 1);
    ConvertText(fl, args, 1);
    ShowsConversion("*", 's', args, fl, 1);
    UpToEnd(t);
    WholeText(t, fl);
  }

  lemma StarFlag(fmt: string, w: nat, args: seq<Arg>)
    requires CString(fmt) && |fmt| > 2 && fmt[1] == '*' && 0 < w < 0x8000_0000 && |args| > 0 && args[0] == Num(w)
    ensures ReadFlag(fmt, 1, NoFlags, args, 0) == Continue(Flags(' ', w, -1, 0, false), 2, 1)
  {
    SignedIsWrap(w);
    WrapSmall(w);
    hide Signed, ReadWidth, Wrap;
  }

  /** A width written out has the same effect. */
  lemma PlainWidth(w: nat, t: string)
    requires w > 0 && NoNul(t) && |t| < TWO32 - 1
    ensures Shows(DigitsOf(w, 10), 's', [Str(t)]) == Pad(w - |t|, ' ') + t
  {
    hide DigitsOf, Shows, Convert, Text, FlagsEnd, CString;
    var d, fl := DigitsOf(w, 10), Flags(' ', w, -1, 0, false);
    assert "" + d == d;
    FieldFormat("", d, ['s', NUL]);
    var fmt := "%" + d + ['s', NUL];
    ReadsField(fmt, "", w, [Str(t)]);
    EndsFlags(fmt, 1 + |d|, fl, [Str(t)], 0);
    ConvertText(fl, [Str(t)], 0);
    ShowsConversion(d, 's', [Str(t)], fl, 0);
    UpToEnd(t);
    WholeText(t, fl);
  }

  lemma WholeText(t: string, fl: Flags)
    requires fl.width > 0 && fl.precision == -1 && !fl.alt && fl.padc == ' ' && |t| < TWO32 - 1
    ensures Text(t, fl) == Pad(fl.width - |t|, ' ') + t
  {
    assert Shown(t, false) == t;
  }

  // --------------------------------------------------------------------- errors

  lemma ShowsError(code: int)
    requires -0x8000_0000 <= code < 0x8000_0000
    ensures Shows("", 'e', [Num(code)]) == ErrorText(code)
  {
    hide Shows, Convert, GetInt, Wrap, ErrorText;
    IntIsWrap(code);
    ConvertError(NoFlags, [Num(code)], 0);
    Unflagged('e', [Num(code)]);
  }

  /** %e names the error, whichever sign its code has. */
  lemma ErrorName(code: int, err: nat)
    requires 1 <= err < |ERRORS| && (code == err || code == 0 - err)
    ensures Shows("", 'e', [Num(code)]) == ERRORS[err]
  {
    hide Shows;
    ShowsError(code);
  }

  /** Other codes are printed as numbers. */
  lemma OtherError(code: nat)
    requires code == 0 || |ERRORS| <= code < 0x8000_0000
    ensures Shows("", 'e', [Num(code)]) == "error " + DigitsOf(code, 10)
  {
    hide Shows, PrintNum, DigitsOf;
    ShowsError(code);
    BareNumber(code, 10);
  }

  /** The names of inc/error.h at the codes the kernel returns. */
  lemma ErrorTable()
    ensures ERRORS[2] == "bad environment" && ERRORS[3] == "invalid parameter" && ERRORS[4] == "out of memory"
    ensures ERRORS[5] == "out of environments" && ERRORS[6] == "segmentation fault" && |ERRORS| == 9
  {
  }
}
