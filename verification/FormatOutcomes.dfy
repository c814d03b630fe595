/** What each directive of rt_vsnprintf prints, told by numerals rather than by the way they are made. */
module FormatOutcomes {
  import opened FormatSpec

  // ---------- directives without flags, width and precision ----------

  predicate Known(c: char) {
    c == 'c' || c == 's' || c == 'p' || c == '%' || Signed(c) || Unsigned(c)
  }

  lemma PlainDirective(c: char, rest: string, args: seq<Arg>)
    requires c !in "-+ #0123456789*.hl"
    ensures Directive([c] + rest, args) == Conversion(c, rest, args, NO_FLAGS, -1, -1, false)
  {
    var t := [c] + rest;
    assert t[0] == c && t[1..] == rest;
    hide Conversion;
  }

  lemma PlainOutput(c: char, rest: string, args: seq<Arg>)
    requires c !in "-+ #0123456789*.hl"
    ensures var (text, r, others) := Conversion(c, rest, args, NO_FLAGS, -1, -1, false);
            Output("%" + [c] + rest, args) == text + Output(rest, others)
  {
    PlainDirective(c, rest, args);
    var t := "%" + [c] + rest;
    assert t[0] == '%' && t[1..] == [c] + rest;
    hide Conversion, Directive;
  }

  lemma NumberPlain(num: int, base: nat, f: Flags)
    requires -0x8000_0000 <= num < 0x8000_0000 && !f.left && !f.zero && !f.plus && !f.space
    ensures Number(num, base, -1, -1, f) ==
            (if f.sign && num < 0 then "-" else "") + Numeral(Magnitude(num, f.sign), Radix(base), f.large)
  {
    DigitsAre(Magnitude(num, f.sign), base, f.large);
    hide Digits, Numeral, Magnitude, Radix;
    NoRepeat(' ', -1 - |Digits(Magnitude(num, f.sign), base, f.large)| - |SignOf(num, f)|);
    NoRepeat('0', 0);
  }

  lemma OneMore(a: Arg, args: seq<Arg>)
    ensures Others([a] + args) == args && ([a] + args)[0] == a
    ensures a.Int? ==> IntOf([a] + args) == a.n
    ensures a.Str? ==> StrOf([a] + args) == a.s
  {
  }

  predicate Signed(c: char) {
    c == 'd' || c == 'i'
  }

  predicate Unsigned(c: char) {
    c == 'u' || c == 'x' || c == 'X' || c == 'o'
  }

  function BaseOf(c: char): nat {
    if c == 'o' then 8 else if c == 'x' || c == 'X' then 16 else 10
  }

  lemma IntConversion(c: char, n: int, rest: string, args: seq<Arg>, f: Flags, width: int, precision: int, half: bool)
    requires Signed(c) || Unsigned(c)
    ensures Conversion(c, rest, [Int(n)] + args, f, width, precision, half) ==
            (Number(Value(n, half, Signed(c)), BaseOf(c), width, precision, f.(sign := Signed(c), large := c == 'X')),
             rest, args)
  {
    OneMore(Int(n), args);
    hide Number, Value, Others, IntOf;
  }

  lemma PointerConversion(n: int, rest: string, args: seq<Arg>, f: Flags, width: int, precision: int, half: bool)
    ensures Conversion('p', rest, [Int(n)] + args, f, width, precision, half) ==
            (Number(Value(n, false, false), 16, if width == -1 then 8 else width, precision,
                    f.(zero := f.zero || width == -1)), rest, args)
  {
    OneMore(Int(n), args);
    hide Number, Value, Others, IntOf;
  }

  lemma ValueIs(n: int)
    ensures -0x8000_0000 <= n < 0x8000_0000 ==> Value(n, false, true) == n
    ensures 0 <= n < 0x1_0000_0000 ==> Magnitude(Value(n, false, false), false) == n
  {
  }

  /** `%d` and `%i` print the decimal numeral of the argument, behind a minus sign when it is negative. */
  lemma SignedDecimal(c: char, n: int, rest: string, args: seq<Arg>)
    requires Signed(c) && -0x8000_0000 <= n < 0x8000_0000
    ensures Output("%" + [c] + rest, [Int(n)] + args) ==
            (if n < 0 then "-" else "") + Numeral(if n < 0 then -n else n, 10, false) + Output(rest, args)
  {
    PlainOutput(c, rest, [Int(n)] + args);
    hide Output, Numeral, Number, Conversion, Value;
    IntConversion(c, n, rest, args, NO_FLAGS, -1, -1, false);
    ValueIs(n);
    NumberPlain(n, 10, NO_FLAGS.(sign := true));
  }

  /** `%u` prints the decimal numeral of the bits of the argument, `%x` and `%X` the hexadecimal one in small and
      in capital letters, and so does `%o` in small letters. */
  lemma UnsignedNumeral(c: char, n: nat, rest: string, args: seq<Arg>)
    requires Unsigned(c) && n < 0x1_0000_0000
    ensures Output("%" + [c] + rest, [Int(n)] + args) ==
            Numeral(n, if c == 'u' then 10 else 16, c == 'X') + Output(rest, args)
  {
    PlainOutput(c, rest, [Int(n)] + args);
    hide Output, Numeral, Number, Conversion, Value, Magnitude;
    IntConversion(c, n, rest, args, NO_FLAGS, -1, -1, false);
    ValueIs(n);
    NumberPlain(Value(n, false, false), BaseOf(c), NO_FLAGS.(large := c == 'X'));
    assert "" + Numeral(n, if c == 'u' then 10 else 16, c == 'X') == Numeral(n, if c == 'u' then 10 else 16, c == 'X');
  }

  /** An argument counts modulo 2^32: a number and the one that has the same 32 bits print the same text. */
  lemma SameBits(c: char, n: int, rest: string, args: seq<Arg>, f: Flags, width: int, precision: int, half: bool)
    requires Signed(c) || Unsigned(c) || c == 'p'
    ensures Conversion(c, rest, [Int(n)] + args, f, width, precision, half) ==
            Conversion(c, rest, [Int(n + 0x1_0000_0000)] + args, f, width, precision, half)
  {
    hide Conversion, Number;
    SameValue(n, half, Signed(c));
    SameValue(n, false, false);
    hide Value;
    if c == 'p' {
      PointerConversion(n, rest, args, f, width, precision, half);
      PointerConversion(n + 0x1_0000_0000, rest, args, f, width, precision, half);
    } else {
      IntConversion(c, n, rest, args, f, width, precision, half);
      IntConversion(c, n + 0x1_0000_0000, rest, args, f, width, precision, half);
    }
  }

  lemma SameValue(n: int, half: bool, sign: bool)
    ensures Value(n, half, sign) == Value(n + 0x1_0000_0000, half, sign)
  {
    assert n % 0x1_0000_0000 == (n + 0x1_0000_0000) % 0x1_0000_0000;
    assert n % 0x1_0000 == (n + 0x1_0000_0000) % 0x1_0000;
  }

  /** `%p` prints eight hexadecimal digits, the leading ones zeros. */
  lemma Pointer(n: nat, rest: string, args: seq<Arg>)
    requires n < 0x1_0000_0000
    ensures Output("%" + ['p'] + rest, [Int(n)] + args) == PointerText(n) + Output(rest, args)
  {
    hide *;
    PlainOutput('p', rest, [Int(n)] + args);
    PlainPointer(n, rest, args);
  }

  function PointerText(n: nat): string {
    Repeat('0', 8 - |Numeral(n, 16, false)|) + Numeral(n, 16, false)
  }

  lemma PlainPointer(n: nat, rest: string, args: seq<Arg>)
    requires n < 0x1_0000_0000
    ensures Conversion('p', rest, [Int(n)] + args, NO_FLAGS, -1, -1, false) == (PointerText(n), rest, args)
  {
    PointerConversion(n, rest, args, NO_FLAGS, -1, -1, false);
    ValueIs(n);
    PaddedHex(Value(n, false, false));
    hide Conversion, Value, Magnitude, Numeral, Repeat, Number;
  }

  lemma PaddedHex(v: int)
    requires -0x8000_0000 <= v < 0x8000_0000
    ensures var h := Numeral(Magnitude(v, false), 16, false);
            Number(v, 16, 8, -1, NO_FLAGS.(zero := true)) == Repeat('0', 8 - |h|) + h
  {
    DigitsAre(Magnitude(v, false), 16, false);
    NoRepeat('0', 0);
    hide Digits, Numeral, Magnitude, Repeat;
  }

  /** `%s` prints the text. */
  lemma PlainText(s: string, rest: string, args: seq<Arg>)
    ensures Output("%" + ['s'] + rest, [Str(s)] + args) == s + Output(rest, args)
  {
    PlainOutput('s', rest, [Str(s)] + args);
    hide Output, Conversion;
    TextConversion(s, ' ', rest, args);
  }

  /** `%c` prints the character. */
  lemma PlainCharacter(c: char, rest: string, args: seq<Arg>)
    requires c as int < 256
    ensures Output("%" + ['c'] + rest, [Int(c as int)] + args) == [c] + Output(rest, args)
  {
    PlainOutput('c', rest, [Int(c as int)] + args);
    hide Output, Conversion;
    TextConversion("", c, rest, args);
  }

  /** `%%` prints a percent sign and takes no argument. */
  lemma PercentSign(rest: string, args: seq<Arg>)
    ensures Output("%" + ['%'] + rest, args) == "%" + Output(rest, args)
  {
    PlainOutput('%', rest, args);
    hide Output, Conversion;
    TextConversion("", ' ', rest, args);
  }

  lemma TextConversion(s: string, c: char, rest: string, args: seq<Arg>)
    requires c as int < 256
    ensures Conversion('s', rest, [Str(s)] + args, NO_FLAGS, -1, -1, false) == (s, rest, args)
    ensures Conversion('c', rest, [Int(c as int)] + args, NO_FLAGS, -1, -1, false) == ([c], rest, args)
    ensures Conversion('%', rest, args, NO_FLAGS, -1, -1, false) == ("%", rest, args)
  {
    OneMore(Str(s), args);
    OneMore(Int(c as int), args);
    NoRepeat(' ', -1 - |s|);
    NoRepeat(' ', -2);
    assert "" + s[..|s|] == s && "" + [c] == [c];
    hide Repeat, Others, StrOf, IntOf, Number;
  }

  /** Any other letter is printed as it stands, with its percent sign, and takes no argument; so is a percent
      sign at the end. */
  lemma Unknown(c: char, rest: string, args: seq<Arg>)
    requires !Known(c) && c !in "-+ #0123456789*.hl"
    ensures Output("%" + [c] + rest, args) == "%" + [c] + Output(rest, args)
    ensures Output("%", args) == "%"
  {
    PlainOutput(c, rest, args);
    assert "%"[1..] == "";
    hide Number;
  }

  /** What is not a directive is printed as it stands. */
  lemma {:induction false} Ordinary(s: string, rest: string, args: seq<Arg>)
    requires '%' !in s
    ensures Output(s + rest, args) == s + Output(rest, args)
  {
    if s == "" {
      assert s + rest == rest;
    } else {
      assert s[0] in s;
      assert (s + rest)[0] == s[0] && (s + rest)[1..] == s[1..] + rest;
      Ordinary(s[1..], rest, args);
      assert s == [s[0]] + s[1..];
      hide Directive;
    }
  }

  // ---------- reading a directive ----------

  function Optional(b: bool, c: char, more: string): string {
    if b then [c] + more else more
  }

  /** The flags that are set, as they may be written in front of the rest of a directive. */
  function Flagged(f: Flags, more: string): string {
    Optional(f.left, '-', Optional(f.plus, '+', Optional(f.space, ' ', Optional(f.zero, '0', more))))
  }

  lemma OneFlag(b: bool, more: string, f: Flags)
    ensures TakeFlags(Optional(b, '-', more), f) == TakeFlags(more, if b then f.(left := true) else f)
    ensures TakeFlags(Optional(b, '+', more), f) == TakeFlags(more, if b then f.(plus := true) else f)
    ensures TakeFlags(Optional(b, ' ', more), f) == TakeFlags(more, if b then f.(space := true) else f)
    ensures TakeFlags(Optional(b, '0', more), f) == TakeFlags(more, if b then f.(zero := true) else f)
  {
    assert forall c: char :: ([c] + more)[1..] == more;
  }

  lemma FlagsRead(f: Flags, more: string)
    requires !f.sign && !f.large && more != "" && more[0] !in "-+ #0"
    ensures TakeFlags(Flagged(f, more), NO_FLAGS) == (f, more)
  {
    assert TakeFlags(more, f) == (f, more);
    hide TakeFlags, Optional;
    var z := Optional(f.zero, '0', more);
    var s := Optional(f.space, ' ', z);
    var p := Optional(f.plus, '+', s);
    OneFlag(f.left, p, NO_FLAGS);
    OneFlag(f.plus, s, NO_FLAGS.(left := f.left));
    OneFlag(f.space, z, NO_FLAGS.(left := f.left, plus := f.plus));
    OneFlag(f.zero, more, f.(zero := false));
  }

  /** A directive written with flags, a field width and a precision in decimal is read as what it says,
      whatever the conversion is; a qualifier in front of it is passed over, and h halves the number. */
  lemma DirectiveReads(f: Flags, width: nat, precision: nat, c: char, half: bool, rest: string, args: seq<Arg>)
    requires !f.sign && !f.large && width > 0 && c != 'h' && c != 'l'
    ensures var text := Flagged(f, Digits(width, 10, false) + ("." + (Digits(precision, 10, false) +
                ((if half then "h" else "l") + ([c] + rest)))));
            Directive(text, args) == Conversion(c, rest, args, f, width, precision, half)
  {
    var q := (if half then "h" else "l") + ([c] + rest);
    assert q[1..] == [c] + rest && ([c] + rest)[0] == c && ([c] + rest)[1..] == rest;
    var p := Digits(precision, 10, false) + q;
    var w := Digits(width, 10, false) + ("." + p);
    assert ("." + p)[1..] == p;
    FirstDigit(width);
    FirstDigit(precision);
    assert p[0] == Digits(precision, 10, false)[0] && w[0] == Digits(width, 10, false)[0];
    DigitsReadBack(width, false, "." + p);
    DigitsReadBack(precision, false, q);
    FlagsRead(f, w);
    hide TakeFlags, Atoi, Digits, Flagged, Conversion;
  }

  lemma {:induction false} FirstDigit(m: nat)
    ensures IsDigit(Digits(m, 10, false)[0]) && (m > 0 ==> Digits(m, 10, false)[0] != '0')
    decreases m
  {
    if m >= 10 { FirstDigit(m / 10); }
  }

  lemma StarWidth(w: int, more: string, args: seq<Arg>)
    ensures TakeWidth("*" + more, [Int(w)] + args) == Field(if w < 0 then -w else w, w < 0, more, args)
  {
    OneMore(Int(w), args);
    assert ("*" + more)[1..] == more;
  }

  lemma StarPrecision(p: int, more: string, args: seq<Arg>)
    ensures TakePrecision("." + ("*" + more), [Int(p)] + args) == Field(if p < 0 then 0 else p, false, more, args)
  {
    OneMore(Int(p), args);
    assert ("." + ("*" + more))[1..] == "*" + more && ("*" + more)[1..] == more;
  }

  /** Stars take the width and the precision from the arguments; a negative width fills the field up from the
      right, and a negative precision counts as 0. */
  lemma StarsRead(f: Flags, w: int, p: int, c: char, rest: string, args: seq<Arg>)
    requires !f.sign && !f.large && c != 'h' && c != 'l'
    ensures Directive(Flagged(f, "*" + ("." + ("*" + ([c] + rest)))), [Int(w)] + ([Int(p)] + args)) ==
            Conversion(c, rest, args, f.(left := f.left || w < 0), if w < 0 then -w else w, if p < 0 then 0
                else p, false)
  {
    var more := [c] + rest;
    assert more[0] == c && more[1..] == rest;
    var t := "*" + ("." + ("*" + more));
    StarWidth(w, "." + ("*" + more), [Int(p)] + args);
    StarPrecision(p, more, args);
    FlagsRead(f, t);
    hide TakeFlags, Flagged, Conversion, TakeWidth, TakePrecision;
  }

  // ---------- whatever the field ----------

  /** The bits of an argument that count. */
  function Bits(n: int, half: bool): nat {
    if half then n % 0x1_0000 else n % 0x1_0000_0000
  }

  lemma {:induction false} HexPadded(n: int, c: char, s: string)
    requires c == '0' || c == ' '
    ensures HexValue(Repeat(c, n) + s) == HexValue(s)
    decreases |s|
  {
    if s == "" {
      assert Repeat(c, n) + s == Repeat(c, n);
      HexZeros(n, c);
    } else {
      var t := Repeat(c, n) + s;
      assert t[..|t| - 1] == Repeat(c, n) + s[..|s| - 1];
      HexPadded(n, c, s[..|s| - 1]);
    }
  }

  lemma {:induction false} HexZeros(n: int, c: char)
    requires c == '0' || c == ' '
    ensures HexValue(Repeat(c, n)) == 0
    decreases if n < 0 then 0 else n
  {
    if n > 0 {
      assert Repeat(c, n)[..|Repeat(c, n)| - 1] == Repeat(c, n - 1);
      HexZeros(n - 1, c);
    }
  }

  /** In whatever field, filled up from the left, `%x`, `%X`, `%o` and `%p` print a text that reads in base 16 as
      the bits of the argument; a precision of 0 leaves nothing to read. */
  lemma HexReads(c: char, rest: string, n: int, args: seq<Arg>, f: Flags, width: int, precision: int, half: bool)
    requires (c == 'x' || c == 'X' || c == 'o' || c == 'p') && !f.left && !f.sign
    ensures HexValue(Conversion(c, rest, [Int(n)] + args, f, width, precision, half).0) ==
            if precision == 0 then 0 else Bits(n, half && c != 'p')
  {
    BitsValue(n, half && c != 'p');
    hide Conversion, Number, HexValue, Value, Magnitude, Bits;
    if c == 'p' {
      PointerConversion(n, rest, args, f, width, precision, half);
      HexField(Value(n, false, false), 16, if width == -1 then 8 else width, precision,
               f.(zero := f.zero || width == -1));
    } else {
      IntConversion(c, n, rest, args, f, width, precision, half);
      HexField(Value(n, half, false), BaseOf(c), width, precision, f.(large := c == 'X'));
    }
  }

  lemma BitsValue(n: int, half: bool)
    ensures Magnitude(Value(n, half, false), false) == Bits(n, half)
  {
  }

  lemma HexField(v: int, base: nat, width: int, precision: int, f: Flags)
    requires -0x8000_0000 <= v < 0x8000_0000 && (base == 8 || base == 16) && !f.left && !f.sign
    ensures HexValue(Number(v, base, width, precision, f)) == if precision == 0 then 0 else Magnitude(v, false)
  {
    HexDigits(Magnitude(v, false), base, f.large);
    var n, k := HexFieldIs(v, base, width, precision, f);
    hide Digits, Number, Magnitude, Filled, HexValue;
    var digits := Digits(Magnitude(v, false), base, f.large);
    HexFilled(if f.zero then '0' else ' ', n, k, if precision == 0 then "" else digits);
  }

  lemma HexDigits(m: nat, base: nat, large: bool)
    requires base == 8 || base == 16
    ensures HexValue(Digits(m, base, large)) == m && HexValue("") == 0
  {
    DigitsAre(m, base, large);
    ReadHex(m, large);
    hide Digits, Numeral;
  }

  function Filled(c: char, n: int, k: int, s: string): string {
    Repeat(c, n) + (Repeat('0', k) + s)
  }

  lemma HexFilled(c: char, n: int, k: int, s: string)
    requires c == '0' || c == ' '
    ensures HexValue(Filled(c, n, k, s)) == HexValue(s)
  {
    HexPadded(k, '0', s);
    HexPadded(n, c, Repeat('0', k) + s);
  }

  /** A field that is filled up from the left, without a sign: blanks or zeros, zeros, and the digits. */
  lemma HexFieldIs(v: int, base: nat, width: int, precision: int, f: Flags) returns (n: int, k: int)
    requires -0x8000_0000 <= v < 0x8000_0000 && !f.left && !f.sign
    ensures var shown := if precision == 0 then "" else Digits(Magnitude(v, false), base, f.large);
            Number(v, base, width, precision, f) == Filled(if f.zero then '0' else ' ', n, k, shown)
  {
    hide Digits, Magnitude, Repeat;
    var digits := Digits(Magnitude(v, false), base, f.large);
    var least := if |digits| > precision then |digits| else precision;
    n, k := width - least, least - |digits|;
  }

  /** In whatever field, `%d`, `%i` and `%u` print behind blanks and a sign, at place `k`, a text that reads
      as the number; the sign is a minus exactly for a signed number whose bits say it is negative. */
  lemma DecimalReads(c: char, rest: string, n: int, args: seq<Arg>, f: Flags, width: int, precision: int, half: bool)
    returns (k: nat, v: int)
    requires (Signed(c) || c == 'u') && precision != 0
    ensures var text := Conversion(c, rest, [Int(n)] + args, f, width, precision, half).0;
            && k <= |text| && Atoi(text[k..], 0).0 == (if v < 0 then -v else v)
            && (v < 0 ==> k > 0 && text[k - 1] == '-')
            && (v >= 0 ==> '-' !in text[..k])
    ensures Bits(v, half) == Bits(n, half) && (if c == 'u' then v >= 0 else -0x8000_0000 <= v < 0x8000_0000)
    ensures v < (if half then 0x1_0000 else 0x1_0000_0000) && (half && c != 'u' ==> -0x8000 <= v < 0x8000)
  {
    var num := Value(n, half, Signed(c));
    v := if c == 'u' then Bits(n, half) else num;
    ValueBits(n, half, Signed(c));
    BitsValue(n, half);
    hide Bits, Value, Number, Conversion;
    IntConversion(c, n, rest, args, f, width, precision, half);
    var g := f.(sign := Signed(c), large := false);
    k := DecimalField(num, width, precision, g);
  }

  lemma ValueBits(n: int, half: bool, sign: bool)
    ensures var v := Value(n, half, sign);
            && Bits(v, half) == Bits(n, half) == Bits(Bits(n, half), half)
            && (half && sign ==> -0x8000 <= v < 0x8000)
    ensures Bits(n, half) < if half then 0x1_0000 else 0x1_0000_0000
  {
  }

  lemma DecimalField(num: int, width: int, precision: int, f: Flags) returns (k: nat)
    requires -0x8000_0000 <= num < 0x8000_0000 && precision != 0
    ensures var text := Number(num, 10, width, precision, f);
            && k <= |text| && Atoi(text[k..], 0).0 == Magnitude(num, f.sign)
            && (if f.sign && num < 0 then k > 0 && text[k - 1] == '-' else '-' !in text[..k])
  {
    k := Lead(num, width, precision, f, |Digits(Magnitude(num, f.sign), 10, f.large)|);
    NumberReadsBack(num, width, precision, f, "");
    var text := Number(num, 10, width, precision, f);
    hide Number, Atoi, Digits, Lead, Magnitude;
    assert text[k..] + "" == text[k..];
    if f.sign && num < 0 { assert text[..k][k - 1] == '-'; }
  }
}
