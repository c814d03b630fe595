/** What rt_vsnprintf of kservice.c prints, as a function of the format and the arguments alone.  Text is
    what stands before its terminating NUL. */
module FormatSpec {

  /** ZEROPAD, SIGN, PLUS, SPACE, LEFT, LARGE; SPECIAL is parsed but has no effect in this configuration. */
  datatype Flags = Flags(zero: bool, sign: bool, plus: bool, space: bool, left: bool, large: bool)

  const NO_FLAGS := Flags(false, false, false, false, false, false)

  datatype Arg = Int(n: int) | Str(s: string) | Null

  function IntOf(args: seq<Arg>): int {
    if args != [] && args[0].Int? then args[0].n else 0
  }

  function StrOf(args: seq<Arg>): string {
    if args != [] && args[0].Str? then args[0].s else "(NULL)"
  }

  function Others(args: seq<Arg>): seq<Arg> {
    if args == [] then [] else args[1..]
  }

  /** _ISDIGIT */
  predicate IsDigit(c: char) {
    '0' <= c <= '9'
  }

  function Repeat(c: char, n: int): (s: string)
    ensures |s| == if n > 0 then n else 0
    ensures forall i :: 0 <= i < |s| ==> s[i] == c
  {
    if n <= 0 then "" else Repeat(c, n - 1) + [c]
  }

  // ---------- numbers ----------

  /** A value of type long from the bits of an argument: 32 bits, or 16 with qualifier h. */
  function Value(arg: int, half: bool, sign: bool): (v: int)
    ensures -0x8000_0000 <= v < 0x8000_0000
  {
    if half then
      var u := arg % 0x1_0000;
      if sign && u >= 0x8000 then u - 0x1_0000 else u
    else
      var u := arg % 0x1_0000_0000;
      if u >= 0x8000_0000 then u - 0x1_0000_0000 else u
  }

  /** What the digit loop divides: the number without its sign, or its bits as an unsigned number. */
  function Magnitude(num: int, sign: bool): (m: nat)
    requires -0x8000_0000 <= num < 0x8000_0000
    ensures m < 0x1_0000_0000
  {
    if num >= 0 then num else if sign then -num else num + 0x1_0000_0000
  }

  function DigitChar(d: nat, large: bool): char
    requires d < 16
  {
    if large then "0123456789ABCDEF"[d] else "0123456789abcdef"[d]
  }

  /** divide knows the bases 10 and 16 only. */
  function Radix(base: nat): (b: nat)
    ensures b == 10 || b == 16
  {
    if base == 10 then 10 else 16
  }

  /** The digits of a number, the most significant one first. */
  function Digits(m: nat, base: nat, large: bool): (s: string)
    ensures |s| > 0
    decreases m
  {
    var b := Radix(base);
    if m < b then [DigitChar(m, large)] else Digits(m / b, base, large) + [DigitChar(m % b, large)]
  }

  function SignOf(num: int, f: Flags): string {
    if !f.sign then "" else if num < 0 then "-" else if f.plus then "+" else if f.space then " " else ""
  }

  /** A number in its field: blanks or zeros up to the width, and zeros up to the precision; with
      precision 0 the digits themselves are left out. */
  function Number(num: int, base: nat, width: int, precision: int, f: Flags): string
    requires -0x8000_0000 <= num < 0x8000_0000
  {
    var digits := Digits(Magnitude(num, f.sign), base, f.large);
    var sign := SignOf(num, f);
    var least := if |digits| > precision then |digits| else precision;
    var pad := width - least - |sign|;
    (if f.left || f.zero then "" else Repeat(' ', pad)) + sign + (if f.zero && !f.left then Repeat('0', pad) else "")
    + Repeat('0', least - |digits|) + (if precision == 0 then "" else digits)
        + (if f.left then Repeat(' ', pad) else "")
  }

  // ---------- directives ----------

  function TakeFlags(fmt: string, f: Flags): (r: (Flags, string))
    ensures |r.1| <= |fmt|
  {
    if fmt == "" then (f, fmt)
    else match fmt[0]
      case '-' => TakeFlags(fmt[1..], f.(left := true))
      case '+' => TakeFlags(fmt[1..], f.(plus := true))
      case ' ' => TakeFlags(fmt[1..], f.(space := true))
      case '#' => TakeFlags(fmt[1..], f)
      case '0' => TakeFlags(fmt[1..], f.(zero := true))
      case _ => (f, fmt)
  }

  /** skip_atoi, when `acc` has been read already */
  function Atoi(fmt: string, acc: nat): (r: (nat, string))
    ensures |r.1| <= |fmt|
  {
    if fmt != "" && IsDigit(fmt[0]) then Atoi(fmt[1..], acc * 10 + (fmt[0] as int - '0' as int)) else (acc, fmt)
  }

  datatype Field = Field(width: int, left: bool, fmt: string, args: seq<Arg>)

  function TakeWidth(fmt: string, args: seq<Arg>): (r: Field)
    ensures |r.fmt| <= |fmt|
  {
    if fmt != "" && IsDigit(fmt[0]) then var (w, rest) := Atoi(fmt, 0); Field(w, false, rest, args)
    else if fmt != "" && fmt[0] == '*' then
      var w := IntOf(args);
      Field(if w < 0 then -w else w, w < 0, fmt[1..], Others(args))
    else Field(-1, false, fmt, args)
  }

  function TakePrecision(fmt: string, args: seq<Arg>): (r: Field)
    ensures |r.fmt| <= |fmt|
  {
    if fmt == "" || fmt[0] != '.' then Field(-1, false, fmt, args)
    else
      var t := fmt[1..];
      if t != "" && IsDigit(t[0]) then var (p, rest) := Atoi(t, 0); Field(p, false, rest, args)
      else if t != "" && t[0] == '*' then
        var p := IntOf(args);
        Field(if p < 0 then 0 else p, false, t[1..], Others(args))
      else Field(0, false, t, args)
  }

  /** Whether the qualifier is h, and the format behind the qualifier. */
  function TakeQualifier(fmt: string): (r: (bool, string))
    ensures |r.1| <= |fmt|
  {
    if fmt != "" && (fmt[0] == 'h' || fmt[0] == 'l') then (fmt[0] == 'h', fmt[1..]) else (false, fmt)
  }

  function Character(c: int, width: int, left: bool): string {
    var ch := [(c % 256) as char];
    if left then ch + Repeat(' ', width - 1) else Repeat(' ', width - 1) + ch
  }

  /** A field width cuts a text off, and so does a positive precision. */
  function TextLength(n: nat, width: int, precision: int): (len: nat)
    ensures len <= n
  {
    var a := if 0 <= width < n then width else n;
    if precision > 0 && a > precision then precision else a
  }

  function Text(s: string, width: int, precision: int, left: bool): string {
    var len := TextLength(|s|, width, precision);
    if left then s[..len] + Repeat(' ', width - len) else Repeat(' ', width - len) + s[..len]
  }

  predicate IsNumber(c: char) {
    c in "oXxdiu"
  }

  /** The text of one directive, given what stands behind its `%`, and what remains. */
  function Directive(fmt: string, args: seq<Arg>): (r: (string, string, seq<Arg>))
    ensures |r.1| <= |fmt|
  {
    var (f0, r0) := TakeFlags(fmt, NO_FLAGS);
    var w := TakeWidth(r0, args);
    var f := f0.(left := f0.left || w.left);
    var p := TakePrecision(w.fmt, w.args);
    var (half, rest) := TakeQualifier(p.fmt);
    if rest == "" then ("%", "", p.args)
    else Conversion(rest[0], rest[1..], p.args, f, w.width, p.width, half)
  }

  function Conversion(c: char, rest: string, args: seq<Arg>, f: Flags, width: int, precision: int,
                      half: bool): (r: (string, string, seq<Arg>))
    ensures r.1 == rest
  {
    match c
    case 'c' => (Character(IntOf(args), width, f.left), rest, Others(args))
    case 's' => (Text(StrOf(args), width, precision, f.left), rest, Others(args))
    case 'p' =>
      (Number(Value(IntOf(args), false, false), 16, if width == -1 then 8 else width, precision,
              f.(zero := f.zero || width == -1)), rest, Others(args))
    case '%' => ("%", rest, args)
    case _ =>
      if !IsNumber(c) then ("%" + [c], rest, args)
      else
        var signed := c == 'd' || c == 'i';
        var base := if c == 'o' then 8 else if c == 'x' || c == 'X' then 16 else 10;
        (Number(Value(IntOf(args), half, signed), base, width, precision, f.(sign := signed, large := c == 'X')),
            rest, Others(args))
  }

  /** All that the format and the arguments print. */
  function Output(fmt: string, args: seq<Arg>): string
    decreases |fmt|
  {
    if fmt == "" then ""
    else if fmt[0] != '%' then [fmt[0]] + Output(fmt[1..], args)
    else
      var (text, rest, others) := Directive(fmt[1..], args);
      text + Output(rest, others)
  }

  /** The size that counts when the memory from the buffer on has `room` bytes: an end that wraps around
      is moved to the last address. */
  function Clamped(size: nat, room: nat): nat
    requires room > 0
  {
    if size < room then size else room - 1
  }

  /** A buffer of which the first `size` characters may be written, after `out` has been printed: the
      text as far as it fits, and then a NUL. */
  function Clipped(was: string, size: nat, out: string): (b: string)
    requires size <= |was|
    ensures |b| == |was|
  {
    if size == 0 then was
    else if |out| < size then out + ['\0'] + was[|out| + 1..]
    else out[..size - 1] + ['\0'] + was[size..]
  }

  // ---------- properties ----------

  function Power10(n: nat): nat {
    if n == 0 then 1 else 10 * Power10(n - 1)
  }

  /** What `acc` becomes when the `n` digits of `m` are read behind it. */
  function Followed(acc: nat, n: nat, m: nat): nat {
    acc * Power10(n) + m
  }

  lemma FollowedNext(acc: nat, n: nat, m: nat)
    ensures Followed(acc, n, m / 10) * 10 + m % 10 == Followed(acc, n + 1, m)
  {
    Shift(acc, Power10(n), m);
  }

  lemma FollowedOne(acc: nat, m: nat)
    ensures Followed(acc, 1, m) == acc * 10 + m && Followed(0, acc, m) == m
  {
    assert Power10(1) == 10 * Power10(0);
  }

  lemma Shift(a: nat, p: nat, m: nat)
    ensures (a * p + m / 10) * 10 + m % 10 == a * (10 * p) + m
  {
  }

  lemma OneDigit(d: nat, large: bool)
    requires d < 10
    ensures IsDigit(DigitChar(d, large)) && DigitChar(d, large) as int - '0' as int == d
  {
  }

  /** Reading the digits of a number and whatever follows them. */
  lemma {:induction false} ReadOn(h: string, rest: string, acc: nat, m: nat, large: bool)
    requires h == Digits(m, 10, large)
    ensures Atoi(h + rest, acc) == Atoi(rest, Followed(acc, |h|, m))
    decreases m
  {
    hide Followed, DigitChar;
    OneDigit(m % 10, large);
    FollowedOne(acc, m);
    if m < 10 {
      assert (h + rest)[1..] == rest;
    } else {
      var g, c := Digits(m / 10, 10, large), DigitChar(m % 10, large);
      assert h + rest == g + ([c] + rest) && ([c] + rest)[1..] == rest;
      ReadOn(g, [c] + rest, acc, m / 10, large);
      FollowedNext(acc, |g|, m);
    }
  }

  /** A number printed in base 10 reads back as the same number. */
  lemma DigitsReadBack(m: nat, large: bool, rest: string)
    requires rest == "" || !IsDigit(rest[0])
    ensures Atoi(Digits(m, 10, large) + rest, 0) == (m, rest)
  {
    ReadOn(Digits(m, 10, large), rest, 0, m, large);
    FollowedOne(|Digits(m, 10, large)|, m);
  }

  /** The digits fit the buffer of sixteen characters in which print_number collects them. */
  lemma DigitsFit(m: nat, base: nat, large: bool)
    requires m < 0x1_0000_0000
    ensures |Digits(m, base, large)| <= 10
  {
    DigitsShorter(m, base, large, 10);
  }

  lemma {:induction false} DigitsShorter(m: nat, base: nat, large: bool, k: nat)
    requires m < Power10(k) && k > 0
    ensures |Digits(m, base, large)| <= k
    decreases m
  {
    if m >= Radix(base) {
      assert Power10(k) == 10 * Power10(k - 1);
      assert k > 1 by { assert Power10(0) == 1; }
      DigitsShorter(m / Radix(base), base, large, k - 1);
    }
  }

  /** A number fills its field exactly, unless it needs more; with precision 0 the place of its digits is
      taken off, and nothing stands there. */
  lemma NumberWidth(num: int, base: nat, width: int, precision: int, f: Flags)
    requires -0x8000_0000 <= num < 0x8000_0000
    ensures var digits := |Digits(Magnitude(num, f.sign), base, f.large)|;
            var least := |SignOf(num, f)| + if digits > precision then digits else precision;
            |Number(num, base, width, precision, f)| ==
            (if least > width then least else width) - (if precision == 0 then digits else 0)
  {
    hide Digits, Magnitude, SignOf;
  }

  /** The numeral of a number in a base, whatever divide knows. */
  function Numeral(m: nat, base: nat, large: bool): (s: string)
    requires 2 <= base <= 16
    ensures |s| > 0
    decreases m
  {
    if m < base then [DigitChar(m, large)] else Numeral(m / base, base, large) + [DigitChar(m % base, large)]
  }

  /** The number that a string means in base 16; other characters count as 0. */
  function HexValue(s: string): nat {
    if s == "" then 0 else 16 * HexValue(s[..|s| - 1]) + HexDigit(s[|s| - 1])
  }

  function HexDigit(c: char): nat {
    if '0' <= c <= '9' then c as int - '0' as int
    else if 'a' <= c <= 'f' then c as int - 'a' as int + 10
    else if 'A' <= c <= 'F' then c as int - 'A' as int + 10
    else 0
  }

  lemma HexOfDigit(d: nat, large: bool)
    requires d < 16
    ensures HexDigit(DigitChar(d, large)) == d
  {
  }

  lemma HexNext(s: string, d: nat, large: bool)
    requires d < 16
    ensures HexValue(s + [DigitChar(d, large)]) == 16 * HexValue(s) + d
  {
    HexOfDigit(d, large);
    var t := s + [DigitChar(d, large)];
    assert t[..|t| - 1] == s;
  }

  lemma HexOne(d: nat, large: bool)
    requires d < 16
    ensures HexValue([DigitChar(d, large)]) == d
  {
    HexNext("", d, large);
    assert "" + [DigitChar(d, large)] == [DigitChar(d, large)];
  }

  /** Read in base 16, the hexadecimal numeral of a number is the number. */
  lemma {:induction false} ReadHex(m: nat, large: bool)
    ensures HexValue(Numeral(m, 16, large)) == m
    decreases m
  {
    hide HexValue, DigitChar;
    if m < 16 {
      HexOne(m, large);
    } else {
      ReadHex(m / 16, large);
      HexNext(Numeral(m / 16, 16, large), m % 16, large);
    }
  }

  /** Read in base 16, the octal numeral of a number is the number below 8, and larger from 8 on. */
  lemma {:induction false} ReadOctal(m: nat, large: bool)
    ensures HexValue(Numeral(m, 8, large)) >= m && (HexValue(Numeral(m, 8, large)) == m <==> m < 8)
    decreases m
  {
    hide HexValue, DigitChar;
    if m < 8 {
      HexOne(m, large);
    } else {
      ReadOctal(m / 8, large);
      HexNext(Numeral(m / 8, 8, large), m % 8, large);
    }
  }

  lemma {:induction false} DigitsAre(m: nat, base: nat, large: bool)
    ensures Digits(m, base, large) == Numeral(m, Radix(base), large)
    decreases m
  {
    if m >= Radix(base) { DigitsAre(m / Radix(base), base, large); }
  }

  /** In base 8 hexadecimal digits are printed, which is octal if and only if the number is below 8. */
  lemma OctalIsHex(m: nat, large: bool)
    ensures Digits(m, 8, large) == Numeral(m, 16, large)
    ensures Digits(m, 8, large) == Numeral(m, 8, large) <==> m < 8
  {
    DigitsAre(m, 8, large);
    ReadHex(m, large);
    ReadOctal(m, large);
  }

  /** As %o prints 8, and as %.0d prints 5. */
  lemma OddNumbers()
    ensures Number(8, 8, -1, -1, NO_FLAGS) == "8" && Numeral(8, 8, false) == "10"
    ensures Number(5, 10, -1, 0, NO_FLAGS.(sign := true)) == ""
  {
    assert Numeral(8, 8, false) == Numeral(1, 8, false) + "0";
  }

  /** A text with a field width takes exactly that width: it is cut off as well as padded. */
  lemma TextWidth(s: string, width: int, precision: int, left: bool)
    ensures |Text(s, width, precision, left)| == if width >= 0 then width else TextLength(|s|, width, precision)
    ensures 0 <= width < |s| && precision <= 0 ==> Text(s, width, precision, left) == s[..width]
  {
    if 0 <= width < |s| && precision <= 0 { assert Repeat(' ', 0) == ""; }
  }

  lemma {:induction false} ZerosSkipped(n: int, s: string)
    ensures Atoi(Repeat('0', n) + s, 0) == Atoi(s, 0)
  {
    if n <= 0 {
      assert Repeat('0', n) + s == s;
    } else {
      assert Repeat('0', n) + s == Repeat('0', n - 1) + (['0'] + s);
      ZerosSkipped(n - 1, ['0'] + s);
      assert (['0'] + s)[1..] == s;
    }
  }

  /** How many characters of a field stand in front of its digits: blanks, if it is filled up from the
      left, and the sign. */
  function Lead(num: int, width: int, precision: int, f: Flags, digits: nat): (k: nat)
    requires -0x8000_0000 <= num < 0x8000_0000
  {
    var pad := width - (if digits > precision then digits else precision) - |SignOf(num, f)|;
    (if f.left || f.zero || pad < 0 then 0 else pad) + |SignOf(num, f)|
  }

  /** Whatever the width, the precision and the flags: behind blanks and the sign, a number in base 10 reads
      back as the same number, its zeros and trailing blanks notwithstanding, if and only if the precision
      is not 0 or the number is 0; with precision 0 no digit is there and 0 is read. */
  lemma NumberReadsBack(num: int, width: int, precision: int, f: Flags, rest: string)
    requires -0x8000_0000 <= num < 0x8000_0000 && (rest == "" || !IsDigit(rest[0]))
    ensures var m := Magnitude(num, f.sign);
            var s := Number(num, 10, width, precision, f);
            var k := Lead(num, width, precision, f, |Digits(m, 10, f.large)|);
            && k <= |s| && Atoi(s[k..] + rest, 0).0 == (if precision == 0 then 0 else m)
            && (Atoi(s[k..] + rest, 0).0 == m <==> precision != 0 || m == 0)
            && s[..k] == Repeat(' ', k - |SignOf(num, f)|) + SignOf(num, f)
  {
    hide Digits, Number, Repeat, Atoi, SignOf, Magnitude, IsDigit;
    var m := Magnitude(num, f.sign);
    var digits := Digits(m, 10, f.large);
    var least := if |digits| > precision then |digits| else precision;
    var sign := SignOf(num, f);
    var pad := width - least - |sign|;
    FieldIs(num, width, precision, f);
    var shown := if precision == 0 then "" else digits;
    var blanks := if f.left || f.zero then "" else Repeat(' ', pad);
    var zeros := Repeat('0', if f.zero && !f.left then pad else 0);
    var tail := if f.left then Repeat(' ', pad) else "";
    NoRepeat('0', 0);
    NoRepeat(' ', 0);
    SplitField(blanks, sign, zeros, Repeat('0', least - |digits|), shown, tail, rest);
    DigitsRead(if f.zero && !f.left then pad else 0, least - |digits|, precision == 0, m, f.large,
               if f.left then pad else 0, rest);
    assert tail == Repeat(' ', if f.left then pad else 0);
    SameBlanks(pad);
  }

  /** Zeros, digits unless they are left out, blanks, and what follows. */
  lemma DigitsRead(n: int, k: int, none: bool, m: nat, large: bool, blanks: int, rest: string)
    requires rest == "" || !IsDigit(rest[0])
    ensures var shown := if none then "" else Digits(m, 10, large);
            Atoi(Repeat('0', n) + (Repeat('0', k) + (shown + (Repeat(' ', blanks) + rest))), 0).0 ==
            if none then 0 else m
  {
    hide Digits, Repeat, Atoi, IsDigit;
    var shown := if none then "" else Digits(m, 10, large);
    var tail := Repeat(' ', blanks) + rest;
    ZerosSkipped(n, Repeat('0', k) + (shown + tail));
    ZerosSkipped(k, shown + tail);
    NoDigit(blanks, rest);
    if none {
      assert shown + tail == tail;
      NothingRead(tail);
    } else {
      DigitsReadBack(m, large, tail);
    }
  }

  lemma NothingRead(s: string)
    requires s == "" || !IsDigit(s[0])
    ensures Atoi(s, 0).0 == 0
  {
  }

  lemma NoRepeat(c: char, n: int)
    ensures n <= 0 ==> Repeat(c, n) == ""
  {
  }

  lemma SameBlanks(pad: int)
    ensures Repeat(' ', pad) == Repeat(' ', if pad < 0 then 0 else pad)
  {
  }

  lemma NoDigit(n: int, rest: string)
    requires rest == "" || !IsDigit(rest[0])
    ensures Repeat(' ', n) + rest == "" || !IsDigit((Repeat(' ', n) + rest)[0])
  {
  }

  lemma SplitField(a: string, b: string, c: string, d: string, e: string, f: string, rest: string)
    ensures var s := a + b + c + d + e + f;
            s[..|a| + |b|] == a + b && s[|a| + |b|..] + rest == c + (d + (e + (f + rest)))
  {
    var s := a + b + c + d + e + f;
    assert s == (a + b) + (c + (d + (e + f)));
    assert (c + (d + (e + f))) + rest == c + (d + (e + (f + rest)));
  }

  lemma FieldIs(num: int, width: int, precision: int, f: Flags)
    requires -0x8000_0000 <= num < 0x8000_0000
    ensures var digits := Digits(Magnitude(num, f.sign), 10, f.large);
            var least := if |digits| > precision then |digits| else precision;
            var pad := width - least - |SignOf(num, f)|;
            Number(num, 10, width, precision, f) ==
            (if f.left || f.zero then "" else Repeat(' ', pad)) + SignOf(num, f)
            + (if f.zero && !f.left then Repeat('0', pad) else "")
            + Repeat('0', least - |digits|) + (if precision == 0 then "" else digits)
            + (if f.left then Repeat(' ', pad) else "")
  {
    hide Digits, Repeat;
  }

  /** What Clipped means: never a character beyond `size`, always a NUL inside it, and in front of the
      NUL a prefix of the output, all of it if it fits. */
  lemma ClippedIs(was: string, size: nat, out: string)
    requires size <= |was|
    ensures forall i :: size <= i < |was| ==> Clipped(was, size, out)[i] == was[i]
    ensures size > 0 ==> var n := if |out| < size then |out| else size - 1;
                         Clipped(was, size, out)[..n] == out[..n] && Clipped(was, size, out)[n] == '\0'
  {
  }
}
