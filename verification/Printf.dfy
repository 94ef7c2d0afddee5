/**
 vprintfmt, sprintputch and vsnprintf (lib/printfmt.c) and the buffered putch and vcprintf of lib/printf.c:
 one character stream, delivered to two kinds of sink.
 */
module Printf {
  import opened Mmu
  import opened Numbers

  /** One variadic argument; a 64-bit integer, a string, or a NULL string. */
  datatype Arg = Num(value: int) | Str(text: string) | NullStr

  /** The variables an escape sequence sets. */
  datatype Flags = Flags(padc: char, width: int, precision: int, lflag: nat, alt: bool)

  const NoFlags: Flags := Flags(' ', -1, -1, 0, false)

  const ERRORS: seq<string> := [
    "", "unspecified error", "bad environment", "invalid parameter", "out of memory", "out of environments",
    "segmentation fault", "env is not recving", "unexpected end of file"]

  // ------------------------------------------------------------------ arguments

  function IntArg(args: seq<Arg>, k: nat): int { if k < |args| && args[k].Num? then args[k].value else 0 }

  function StrArg(args: seq<Arg>, k: nat): (r: string)
    ensures NoNul(r)
  {
    if k < |args| && args[k].Str? then UpToNul(args[k].text) else "(null)"
  }

  predicate NoNul(t: string) { forall i :: 0 <= i < |t| ==> t[i] != NUL }

  /** The characters before the first NUL. */
  function UpToNul(t: string): (r: string)
    ensures NoNul(r) && r <= t && (r == t || t[|r|] == NUL)
  {
    if t == "" || t[0] == NUL then "" else [t[0]] + UpToNul(t[1..])
  }

  function Signed(x: int, bits: nat): int
    requires bits > 0
  {
    (x + bits / 2) % bits - bits / 2
  }

  const TWO64: nat := 0x1_0000_0000_0000_0000

  /** getint and getuint: 64 bits for %ll, otherwise 32. */
  function GetInt(args: seq<Arg>, k: nat, lflag: nat): int { Signed(IntArg(args, k), if lflag >= 2 then TWO64 else TWO32) }

  function GetUint(args: seq<Arg>, k: nat, lflag: nat): nat { IntArg(args, k) % if lflag >= 2 then TWO64 else TWO32 }

  // ---------------------------------------------------------------- conversions

  function Decimal(x: int, fl: Flags): string {
    if x < 0 then "-" + PrintNum(-x, 10, fl.width, fl.padc) else PrintNum(x, 10, fl.width, fl.padc)
  }

  function ErrorText(code: int): string {
    var err := if code < 0 then -code else code;
    if err >= |ERRORS| || err == 0 then "error " + PrintNum(err, 10, -1, ' ') else ERRORS[err]
  }

  /** %s: cut to the precision, padded on the left with padc or, after '-', on the right with spaces. */
  function Text(p: string, fl: Flags): string {
    var t := Cut(p, fl.precision);
    (if fl.width > 0 && fl.padc != '-' then Pad(fl.width - Min(|p|, fl.precision % TWO32), fl.padc) else "")
    + Shown(t, fl.alt)
    + if fl.padc == '-' then Pad(fl.width - |t|, ' ') else ""
  }

  /** With the # flag, characters that do not print are shown as question marks. */
  function Shown(t: string, alt: bool): string {
    seq(|t|, i requires 0 <= i < |t| => Show(t[i], alt))
  }

  function Show(c: char, alt: bool): char { if alt && (c < ' ' || c > '~') then '?' else c }

  function Min(a: int, b: int): int { if a < b then a else b }

  /** strnlen of the C string p. */
  method StrNLen(p: string, size: nat) returns (n: nat)
    requires NoNul(p)
    ensures n == Min(|p|, size)
  {
    var s := p + [NUL];
    n := 0;
    while n < size && s[n] != NUL
      invariant n <= size && n <= |p|
    {
      n := n + 1;
    }
  }

  /** `out` followed by `width` copies of c, if width is positive. */
  method PutPadding(out0: string, width: int, c: char) returns (out: string)
    ensures out == out0 + Pad(width, c)
  {
    out := out0;
    var left := width;
    while left > 0
      invariant left <= width && (left >= 0 || left == width) && out == out0 + Pad(width - left, c)
      decreases left
    {
      assert Pad(width - left, c) + [c] == Pad(width - (left - 1), c);
      out := out + [c];
      left := left - 1;
    }
    assert Pad(width - left, c) == Pad(width, c);
  }

  /** The part of p that %s prints. */
  function Cut(p: string, precision: int): string { if 0 <= precision < |p| then p[..precision] else p }

  /** The character loop of %s; n counts the characters printed. */
  method PutText(out0: string, p: string, precision0: int, alt: bool) returns (out: string, n: nat)
    requires NoNul(p)
    ensures out == out0 + Shown(Cut(p, precision0), alt) && n == |Cut(p, precision0)|
  {
    var s := p + [NUL];
    var precision := precision0;
    out, n := out0, 0;
    while s[n] != NUL && (precision < 0 || precision - 1 >= 0)
      invariant n <= |p| && out == out0 + Shown(p[..n], alt)
      invariant precision0 < 0 ==> precision == precision0
      invariant precision0 >= 0 ==> precision == precision0 - n >= 0
      decreases |p| - n
    {
      assert Shown(p[..n + 1], alt) == Shown(p[..n], alt) + [Show(p[n], alt)];
      Associate(out0, Shown(p[..n], alt), [Show(p[n], alt)]);
      out := out + [Show(s[n], alt)];
      precision := if precision < 0 then precision else precision - 1;
      n := n + 1;
    }
    assert p[..n] == Cut(p, precision0);
  }

  /** The %s case with its three loops: padding on the left, the characters, padding on the right. */
  method PrintText(p: string, fl: Flags) returns (out: string)
    requires NoNul(p)
    ensures out == Text(p, fl)
  {
    hide Shown, Cut, Pad;
    var width := fl.width;
    out := "";
    if width > 0 && fl.padc != '-' {
      var n := StrNLen(p, fl.precision % TWO32);
      width := width - n;
      out := PutPadding("", width, fl.padc);
      width := Min(width, 0);
    }
    ghost var first, width1 := out, width;
    var n;
    out, n := PutText(out, p, fl.precision, fl.alt);
    assert out == first + Shown(Cut(p, fl.precision), fl.alt);
    out := PutPadding(out, width - n, ' ');
    PadNothing(width1 - n, ' ');
    PadNothing(fl.width - n, ' ');
  }

  lemma PadNothing(width: int, c: char)
    ensures width <= 0 ==> Pad(width, c) == ""
  {
  }

  /** What a conversion character prints, and how many arguments it takes; None if it is not one. */
  datatype Output = Prints(text: string, takes: nat) | NotAConversion

  function Convert(c: char, fl: Flags, args: seq<Arg>, k: nat): (r: Output)
    ensures r.Prints? ==> c != NUL
  {
    match c
    case 'c' => Prints([(IntArg(args, k) % 256) as char], 1)
    case 'e' => Prints(ErrorText(GetInt(args, k, 0)), 1)
    case 's' => Prints(Text(StrArg(args, k), fl), 1)
    case 'd' => Prints(Decimal(GetInt(args, k, fl.lflag), fl), 1)
    case 'u' => Prints(PrintNum(GetUint(args, k, fl.lflag), 10, fl.width, fl.padc), 1)
    case 'o' => Prints(PrintNum(GetUint(args, k, fl.lflag), 8, fl.width, fl.padc), 1)
    case 'p' => Prints("0x" + PrintNum(GetUint(args, k, 0), 16, fl.width, fl.padc), 1)
    case 'x' => Prints(PrintNum(GetUint(args, k, fl.lflag), 16, fl.width, fl.padc), 1)
    case '%' => Prints("%", 0)
    case _ => NotAConversion
  }

  // ---------------------------------------------------------------- flag characters

  /** process_precision: the number becomes the width if there is none yet. */
  function SetPrecision(fl: Flags, n: int): Flags {
    if fl.width < 0 then fl.(width := n, precision := -1) else fl.(precision := n)
  }

  predicate Figure(c: char) { '0' <= c <= '9' }

  /** The number that starts with the figures read so far, and the index after it. */
  function ReadWidth(fmt: string, j: nat, n: int): (r: (int, nat))
    requires CString(fmt) && j < |fmt|
    ensures j <= r.1 < |fmt| && forall x :: j <= x < r.1 ==> Figure(fmt[x])
    decreases |fmt| - j
  {
    if Figure(fmt[j]) then ReadWidth(fmt, j + 1, n * 10 + (fmt[j] as int - '0' as int)) else (n, j)
  }

  /** After a flag character: the new flags, the next index, and the next argument. */
  datatype AfterFlag = Continue(fl: Flags, next: nat, arg: nat) | NotAFlag

  function ReadFlag(fmt: string, j: nat, fl: Flags, args: seq<Arg>, k: nat): (r: AfterFlag)
    requires CString(fmt) && j < |fmt|
    ensures r.Continue? ==> j < r.next < |fmt| && forall x :: j <= x < r.next ==> fmt[x] != '%'
  {
    match fmt[j]
    case '-' => Continue(fl.(padc := '-'), j + 1, k)
    case '0' => Continue(fl.(padc := '0'), j + 1, k)
    case '*' => Continue(SetPrecision(fl, Signed(IntArg(args, k), TWO32)), j + 1, k + 1)
    case '.' => Continue(if fl.width < 0 then fl.(width := 0) else fl, j + 1, k)
    case '#' => Continue(fl.(alt := true), j + 1, k)
    case 'l' => Continue(fl.(lflag := fl.lflag + 1), j + 1, k)
    case c =>
      if '1' <= c <= '9' then
        var (n, next) := ReadWidth(fmt, j, 0);
        Continue(SetPrecision(fl, n), next, k)
      else NotAFlag
  }

  // ------------------------------------------------------------------- the stream

  /** Everything vprintfmt prints from format index i on. */
  function Stream(fmt: string, i: nat, args: seq<Arg>, k: nat): string
    requires CString(fmt) && i < |fmt|
    decreases |fmt| - i, |fmt| + 1
  {
    if fmt[i] == NUL then ""
    else if fmt[i] != '%' then [fmt[i]] + Stream(fmt, i + 1, args, k)
    else Escape(fmt, i, i + 1, NoFlags, args, k)
  }

  /** The same from index j inside the escape sequence that starts at `pct`. */
  function Escape(fmt: string, pct: nat, j: nat, fl: Flags, args: seq<Arg>, k: nat): string
    requires CString(fmt) && pct < j < |fmt|
    decreases |fmt| - pct, |fmt| - j
  {
    match ReadFlag(fmt, j, fl, args, k)
    case Continue(fl', j', k') => Escape(fmt, pct, j', fl', args, k')
    case NotAFlag =>
      match Convert(fmt[j], fl, args, k)
      case Prints(text, takes) => text + Stream(fmt, j + 1, args, k + takes)
      case NotAConversion => "%" + Stream(fmt, pct + 1, args, k)
  }

  /** One flag: a character, or a number read figure by figure. */
  method TakeFlag(fmt: string, j: nat, fl: Flags, args: seq<Arg>, k: nat) returns (r: AfterFlag)
    requires CString(fmt) && j < |fmt|
    ensures r == ReadFlag(fmt, j, fl, args, k)
  {
    match fmt[j]
    case '-' => r := Continue(fl.(padc := '-'), j + 1, k);
    case '0' => r := Continue(fl.(padc := '0'), j + 1, k);
    case '*' => r := Continue(SetPrecision(fl, Signed(IntArg(args, k), TWO32)), j + 1, k + 1);
    case '.' => r := Continue(if fl.width < 0 then fl.(width := 0) else fl, j + 1, k);
    case '#' => r := Continue(fl.(alt := true), j + 1, k);
    case 'l' => r := Continue(fl.(lflag := fl.lflag + 1), j + 1, k);
    case c =>
      if !('1' <= c <= '9') {
        return NotAFlag;
      }
      var precision, i: nat := 0, j;
      while Figure(fmt[i])
        invariant j <= i < |fmt| && ReadWidth(fmt, i, precision) == ReadWidth(fmt, j, 0)
        decreases |fmt| - i
      {
        precision := precision * 10 + (fmt[i] as int - '0' as int);
        i := i + 1;
      }
      r := Continue(SetPrecision(fl, precision), i, k);
  }

  /** The reswitch loop: flag characters up to the first character that is none. */
  method ReadFlags(fmt: string, pct: nat, args: seq<Arg>, k0: nat) returns (fl: Flags, j: nat, k: nat)
    requires CString(fmt) && pct < |fmt| && fmt[pct] == '%'
    ensures pct < j < |fmt| && ReadFlag(fmt, j, fl, args, k).NotAFlag?
    ensures forall x :: pct < x < j ==> fmt[x] != '%'
    ensures Escape(fmt, pct, pct + 1, NoFlags, args, k0) == Escape(fmt, pct, j, fl, args, k)
  {
    hide ReadFlag, Convert;
    fl, j, k := NoFlags, pct + 1, k0;
    var step := TakeFlag(fmt, j, fl, args, k);
    while step.Continue?
      invariant pct < j < |fmt| && step == ReadFlag(fmt, j, fl, args, k)
      invariant forall x :: pct < x < j ==> fmt[x] != '%'
      invariant Escape(fmt, pct, pct + 1, NoFlags, args, k0) == Escape(fmt, pct, j, fl, args, k)
      decreases |fmt| - j
    {
      fl, j, k := step.fl, step.next, step.arg;
      step := TakeFlag(fmt, j, fl, args, k);
    }
  }

  /** The rollback: back to just after the percent sign. */
  method BackUp(fmt: string, pct: nat, j: nat) returns (i: nat)
    requires pct < j < |fmt| && fmt[pct] == '%' && forall x :: pct < x < j ==> fmt[x] != '%'
    ensures i == pct + 1
  {
    i := j;
    while fmt[i - 1] != '%'
      invariant pct < i <= j
      decreases i
    {
      i := i - 1;
    }
  }

  /** The conversions; the numbers are printed by recursion, as in the source, and strings by loops. */
  method TakeConversion(c: char, fl: Flags, args: seq<Arg>, k: nat) returns (r: Output)
    ensures r == Convert(c, fl, args, k)
  {
    if c == 's' {
      var text := PrintText(StrArg(args, k), fl);
      r := Prints(text, 1);
    } else {
      r := Convert(c, fl, args, k);
    }
  }

  /**
   vprintfmt with its loops and its rollback.  Every index it reads is at or before the terminating NUL, every
   round of the main loop moves forward, and the characters handed to putch are exactly the stream.
   */
  method VPrintFmt(fmt: string, args: seq<Arg>) returns (out: string)
    requires CString(fmt)
    ensures out == Stream(fmt, 0, args, 0)
  {
    hide ReadFlag, Convert;
    out := "";
    var i: nat, k: nat := 0, 0;
    while fmt[i] != NUL
      invariant i < |fmt| && out + Stream(fmt, i, args, k) == Stream(fmt, 0, args, 0)
      decreases |fmt| - i
    {
      ghost var rest := Stream(fmt, i, args, k);
      var text := [fmt[i]];
      if fmt[i] != '%' {
        i := i + 1;
      } else {
        var pct := i;
        var fl, j;
        fl, j, k := ReadFlags(fmt, pct, args, k);
        var conv := TakeConversion(fmt[j], fl, args, k);
        if conv.Prints? {
          text, i, k := conv.text, j + 1, k + conv.takes;
        } else {
          i := BackUp(fmt, pct, j);
        }
      }
      assert rest == text + Stream(fmt, i, args, k);
      assert out + (text + Stream(fmt, i, args, k)) == out + text + Stream(fmt, i, args, k);
      out := out + text;
    }
  }

  // ------------------------------------------------------------------------ laws

  /** Double every percent sign. */
  function Quote(t: string): string {
    if t == "" then "" else (if t[0] == '%' then "%%" else [t[0]]) + Quote(t[1..])
  }

  lemma {:induction false} QuoteIsString(t: string)
    requires NoNul(t)
    ensures NoNul(Quote(t))
  {
    if t != "" {
      QuoteIsString(t[1..]);
    }
  }

  /** Printing a string whose percent signs are doubled prints the string itself, whatever the arguments. */
  lemma {:induction false} QuotedPrintsItself(fmt: string, i: nat, t: string, args: seq<Arg>, k: nat)
    requires CString(fmt) && i < |fmt| && NoNul(t) && fmt[i..] == Quote(t) + [NUL]
    ensures Stream(fmt, i, args, k) == t
    decreases |t|
  {
    if t == "" {
      assert fmt[i..][0] == fmt[i];
    } else {
      var q := if t[0] == '%' then "%%" else [t[0]];
      assert fmt[i..] == q + (Quote(t[1..]) + [NUL]);
      assert fmt[i..][0] == fmt[i] && fmt[i..][1] == fmt[i + 1];
      assert fmt[i + |q|..] == fmt[i..][|q|..] == Quote(t[1..]) + [NUL];
      QuotedPrintsItself(fmt, i + |q|, t[1..], args, k);
      assert t == [t[0]] + t[1..];
      if t[0] == '%' {
        assert ReadFlag(fmt, i + 1, NoFlags, args, k).NotAFlag?;
        assert Convert(fmt[i + 1], NoFlags, args, k) == Prints("%", 0);
      }
    }
  }

  lemma PrintQuoted(t: string, args: seq<Arg>)
    requires NoNul(t)
    ensures CString(Quote(t) + [NUL]) && Stream(Quote(t) + [NUL], 0, args, 0) == t
  {
    QuoteIsString(t);
    QuotedPrintsItself(Quote(t) + [NUL], 0, t, args, 0);
  }

  /** Where the flag characters of an escape end, with the flags and the next argument by then. */
  function FlagsEnd(fmt: string, j: nat, fl: Flags, args: seq<Arg>, k: nat): (r: (Flags, nat, nat))
    requires CString(fmt) && j < |fmt|
    ensures j <= r.1 < |fmt| && forall x :: j <= x < r.1 ==> fmt[x] != '%'
    decreases |fmt| - j
  {
    match ReadFlag(fmt, j, fl, args, k)
    case Continue(fl', j', k') => FlagsEnd(fmt, j', fl', args, k')
    case NotAFlag => (fl, j, k)
  }

  lemma {:induction false} EscapeIsItsEnd(fmt: string, pct: nat, j: nat, fl: Flags, args: seq<Arg>, k: nat)
    requires CString(fmt) && pct < j < |fmt|
    ensures var (fl', j', k') := FlagsEnd(fmt, j, fl, args, k);
            Escape(fmt, pct, j, fl, args, k) ==
            match Convert(fmt[j'], fl', args, k')
            case Prints(text, takes) => text + Stream(fmt, j' + 1, args, k' + takes)
            case NotAConversion => "%" + Stream(fmt, pct + 1, args, k')
    decreases |fmt| - j
  {
    hide Convert;
    var r := ReadFlag(fmt, j, fl, args, k);
    hide ReadFlag;
    if r.Continue? {
      EscapeIsItsEnd(fmt, pct, r.next, r.fl, args, r.arg);
    }
  }

  lemma {:induction false} PlainText(fmt: string, i: nat, j: nat, args: seq<Arg>, k: nat)
    requires CString(fmt) && i <= j < |fmt| && forall x :: i <= x < j ==> fmt[x] != '%'
    ensures Stream(fmt, i, args, k) == fmt[i..j] + Stream(fmt, j, args, k)
    decreases j - i
  {
    hide Escape;
    if i < j {
      PlainText(fmt, i + 1, j, args, k);
      assert fmt[i] != NUL;
      var c, mid, rest := [fmt[i]], fmt[i + 1..j], Stream(fmt, j, args, k);
      assert fmt[i..j] == c + mid;
      assert c + (mid + rest) == c + mid + rest;
    } else {
      assert fmt[i..j] == "";
    }
  }

  /**
   An unrecognised escape sequence is printed literally: the percent sign and every flag character of it, after
   which printing goes on at the unrecognised character, with only the arguments of '*' consumed.
   */
  lemma UnknownEscapeIsLiteral(fmt: string, i: nat, args: seq<Arg>, k: nat, fl: Flags, j: nat, k': nat)
    requires CString(fmt) && i < |fmt| - 1 && fmt[i] == '%' && FlagsEnd(fmt, i + 1, NoFlags, args, k) == (fl, j, k')
    requires Convert(fmt[j], fl, args, k') == NotAConversion
    ensures Stream(fmt, i, args, k) == fmt[i..j] + Stream(fmt, j, args, k')
  {
    hide Convert, ReadFlag, Escape, Stream, FlagsEnd, CString;
    AtPercent(fmt, i, args, k);
    EscapeIsItsEnd(fmt, i, i + 1, NoFlags, args, k);
    PlainText(fmt, i + 1, j, args, k');
    LiteralPart(fmt, i, j);
    Associate("%", fmt[i + 1..j], Stream(fmt, j, args, k'));
  }

  lemma LiteralPart(fmt: string, i: nat, j: nat)
    requires i < j <= |fmt| && fmt[i] == '%'
    ensures fmt[i..j] == "%" + fmt[i + 1..j]
  {
  }

  lemma AtPercent(fmt: string, i: nat, args: seq<Arg>, k: nat)
    requires CString(fmt) && i < |fmt| && fmt[i] == '%'
    ensures i + 1 < |fmt| && Stream(fmt, i, args, k) == Escape(fmt, i, i + 1, NoFlags, args, k)
  {
  }

  lemma Associate(a: string, b: string, c: string)
    ensures a + (b + c) == a + b + c
  {
  }

  // ------------------------------------------------------------------------ sinks

  /** struct sprintbuf and sprintputch: at most n - 1 characters are kept, all are counted. */
  class SprintBuf {
    const buf: array<char>
    const limit: nat
    var pos: nat
    var cnt: nat

    ghost predicate Holds(s: string)
      reads this, buf
    {
      limit < buf.Length && cnt == |s| && pos == Min(limit, |s|) && buf[..pos] == s[..pos]
    }

    constructor (b: array<char>, n: nat)
      requires 1 <= n <= b.Length
      ensures buf == b && limit == n - 1 && Holds("")
    {
      buf, limit, pos, cnt := b, n - 1, 0, 0;
    }

    method Putch(c: char, ghost s: string)
      requires Holds(s)
      modifies this, buf
      ensures Holds(s + [c])
      ensures forall x :: pos <= x < buf.Length ==> buf[x] == old(buf[x])
    {
      cnt := cnt + 1;
      if pos < limit {
        buf[pos] := c;
        pos := pos + 1;
      }
    }
  }

  const E_INVAL: int := 3

  /**
   vsnprintf stores the first min(n - 1, total) characters of the stream and a NUL, leaves the rest of the buffer
   alone, and returns the full length of the stream; n < 1 is refused.
   */
  method VsnPrintf(buf: array<char>, n: int, fmt: string, args: seq<Arg>) returns (r: int)
    requires CString(fmt) && n <= buf.Length
    modifies buf
    ensures n < 1 ==> r == -E_INVAL && buf[..] == old(buf[..])
    ensures n >= 1 ==>
              var s := Stream(fmt, 0, args, 0);
              var kept := Min(n - 1, |s|);
              r == |s| && buf[..kept] == s[..kept] && buf[kept] == NUL
              && forall x :: kept < x < buf.Length ==> buf[x] == old(buf[x])
  {
    if n < 1 {
      return -E_INVAL;
    }
    var out := VPrintFmt(fmt, args);
    var b := new SprintBuf(buf, n);
    for i := 0 to |out|
      invariant b.buf == buf && b.limit == n - 1 && fresh(b) && b.Holds(out[..i])
      invariant forall x :: b.pos <= x < buf.Length ==> buf[x] == old(buf[x])
    {
      b.Putch(out[i], out[..i]);
      assert out[..i + 1] == out[..i] + [out[i]];
    }
    assert out[..|out|] == out;
    buf[b.pos] := NUL;
    r := b.cnt;
  }

  /** struct printbuf and its putch: a system call whenever 255 characters have collected. */
  class PrintBuf {
    const buf: array<char>
    var idx: nat
    var cnt: nat
    var calls: seq<string>

    ghost predicate Holds(s: string)
      reads this, buf
    {
      buf.Length == 256 && idx < 255 && cnt == |s| && Concat(calls) + buf[..idx] == s
      && forall i :: 0 <= i < |calls| ==> |calls[i]| == 255
    }

    constructor ()
      ensures fresh(buf) && Holds("") && calls == []
    {
      buf := new char[256];
      idx, cnt, calls := 0, 0, [];
    }

    method Putch(c: char, ghost s: string)
      requires Holds(s)
      modifies this, buf
      ensures Holds(s + [c])
    {
      hide Concat;
      ghost var kept := buf[..idx];
      buf[idx] := c;
      idx := idx + 1;
      assert buf[..idx] == kept + [c];
      assert Concat(calls) + (kept + [c]) == Concat(calls) + kept + [c];
      if idx == 255 {
        ConcatAppend(calls, buf[..idx]);
        calls := calls + [buf[..idx]];
        idx := 0;
      }
      cnt := cnt + 1;
    }
  }

  ghost function Concat(chunks: seq<string>): string {
    if chunks == [] then "" else chunks[0] + Concat(chunks[1..])
  }

  lemma {:induction false} ConcatAppend(chunks: seq<string>, last: string)
    ensures Concat(chunks + [last]) == Concat(chunks) + last
    decreases |chunks|
  {
    if chunks == [] {
      assert [last][1..] == [];
      assert ([] + [last]) == [last];
    } else {
      ConcatAppend(chunks[1..], last);
      assert (chunks + [last])[1..] == chunks[1..] + [last];
      assert chunks[0] + (Concat(chunks[1..]) + last) == chunks[0] + Concat(chunks[1..]) + last;
    }
  }

  /**
   The user-level vcprintf delivers the same stream in system calls of 255 characters and a last shorter one,
   and returns its length.
   */
  method VcPrintf(fmt: string, args: seq<Arg>) returns (r: int, calls: seq<string>)
    requires CString(fmt)
    ensures r == |Stream(fmt, 0, args, 0)| && Concat(calls) == Stream(fmt, 0, args, 0)
    ensures |calls| >= 1 && |calls[|calls| - 1]| < 255 && forall i :: 0 <= i < |calls| - 1 ==> |calls[i]| == 255
  {
    hide Stream, Concat, CString;
    var out := VPrintFmt(fmt, args);
    var b := new PrintBuf();
    for i := 0 to |out|
      invariant fresh(b) && fresh(b.buf) && b.Holds(out[..i])
    {
      b.Putch(out[i], out[..i]);
      assert out[..i + 1] == out[..i] + [out[i]];
    }
    assert out[..|out|] == out;
    var last := b.buf[..b.idx];
    ConcatAppend(b.calls, last);
    r, calls := b.cnt, b.calls + [last];
  }
}
