/** rt_vsnprintf as it writes into its buffer. */
module Format {
  import opened FormatSpec

  class Printer {
    const buf: array<char>
    const size: nat                 // end - buf
    var str: nat                    // where the next character goes
    ghost var out: string           // what has been printed
    ghost const was: string

    ghost predicate Valid()
      reads this, buf
    {
      && size <= buf.Length == |was| && str == |out|
      && forall i :: 0 <= i < buf.Length ==> buf[i] == if i < size && i < |out| then out[i] else was[i]
    }

    constructor (buf: array<char>, size: nat)
      requires size <= buf.Length
      ensures Valid() && out == "" && this.buf == buf && this.size == size && was == buf[..]
    {
      this.buf, this.size, str, out, was := buf, size, 0, "", buf[..];
    }

    /** if (str < end) *str = c; ++ str; */
    method Put(c: char)
      requires Valid()
      modifies this, buf
      ensures Valid() && out == old(out) + [c]
    {
      if str < size { buf[str] := c; }
      str := str + 1;
      out := out + [c];
    }

    /** while (n-- > 0) put a character */
    method Pad(c: char, n: int)
      requires Valid()
      modifies this, buf
      ensures Valid() && out == old(out) + Repeat(c, n)
    {
      var k := 0;
      while k < n
        invariant Valid() && out == old(out) + Repeat(c, k) && (k == 0 || k <= n)
      {
        Put(c);
        k := k + 1;
      }
      assert n <= 0 ==> Repeat(c, n) == "";
    }

    method PutAll(s: string)
      requires Valid()
      modifies this, buf
      ensures Valid() && out == old(out) + s
    {
      for i := 0 to |s|
        invariant Valid() && out == old(out) + s[..i]
      {
        Put(s[i]);
        assert s[..i + 1] == s[..i] + [s[i]];
      }
      assert s[..|s|] == s;
    }

    /** print_number */
    method PrintNumber(num: int, base: nat, width: int, precision: int, f: Flags)
      requires Valid() && -0x8000_0000 <= num < 0x8000_0000
      modifies this, buf
      ensures Valid() && out == old(out) + Number(num, base, width, precision, f)
    {
      hide Digits, Repeat, Valid, Number, Reversed;
      var sign := "";
      if f.sign {
        if num < 0 { sign := "-"; } else if f.plus { sign := "+"; } else if f.space { sign := " "; }
      }
      assert sign == SignOf(num, f);
      hide SignOf;
      var tmp := Collect(Magnitude(num, f.sign), base, f.large);
      var i := |tmp|;
      var least := if i > precision then i else precision;
      ghost var pad := width - least - |sign|;
      var rest := PrintFront(sign, width - least, f);
      NoRepeat(' ', rest);
      PrintBack(tmp, least - i, precision != 0, rest);
      NumberIs(num, base, width, precision, f, tmp, least, pad);
      Joined(old(out), if f.left || f.zero then "" else Repeat(' ', pad), sign,
             if f.zero && !f.left then Repeat('0', pad) else "", Repeat('0', least - i),
             if precision == 0 then "" else Reversed(tmp), if f.left then Repeat(' ', pad) else "");
    }

    /** The zeros up to the precision, the digits, and the blanks behind them. */
    method PrintBack(tmp: string, zeros: int, show: bool, size: int)
      requires Valid()
      modifies this, buf
      ensures Valid() && out == old(out) + Repeat('0', zeros) + (if show then Reversed(tmp) else "") + Repeat(' ', size)
    {
      hide Valid, Repeat, Reversed;
      Pad('0', zeros);
      if show { PutReversed(tmp); }
      Pad(' ', size);
    }

    /** while (i-- > 0) put tmp[i] */
    method PutReversed(tmp: string)
      requires Valid()
      modifies this, buf
      ensures Valid() && out == old(out) + Reversed(tmp)
    {
      var n: nat := |tmp|;
      assert tmp[..n] == tmp;
      while n > 0
        invariant n <= |tmp| && Valid() && out + Reversed(tmp[..n]) == old(out) + Reversed(tmp)
      {
        n := n - 1;
        assert tmp[..n + 1][..n] == tmp[..n];
        assert out + ([tmp[n]] + Reversed(tmp[..n])) == out + [tmp[n]] + Reversed(tmp[..n]);
        Put(tmp[n]);
      }
      assert out + "" == out;
    }

    /** Padding in front and the sign; what remains of the field goes behind the digits. */
    method PrintFront(sign: string, field: int, f: Flags) returns (size: int)
      requires Valid() && |sign| <= 1
      modifies this, buf
      ensures Valid()
      ensures var pad := field - |sign|;
              out == old(out) + (if f.left || f.zero then "" else Repeat(' ', pad)) + sign
                  + (if f.zero && !f.left then Repeat('0', pad) else "")
      ensures if f.left then size == field - |sign| else size <= 0
    {
      hide Repeat, Valid;
      var zero := f.zero && !f.left;
      size := field;
      NoRepeat(' ', field - |sign|);
      if !zero && !f.left {
        if sign != "" && size > 0 { size := size - 1; }
        NoRepeat(' ', size);
        Pad(' ', size);
        size := if size > 0 then -1 else size - 1;
      }
      assert out == old(out) + (if f.left || f.zero then "" else Repeat(' ', field - |sign|));
      if sign != "" {
        assert sign == [sign[0]];
        size := size - 1;
        Put(sign[0]);
      }
      if !f.left {
        NoRepeat(if zero then '0' else ' ', size);
        Pad(if zero then '0' else ' ', size);
        size := if size > 0 then -1 else size - 1;
      }
    }

    /** The case 'c'. */
    method PrintCharacter(c: int, width: int, left: bool)
      requires Valid()
      modifies this, buf
      ensures Valid() && out == old(out) + Character(c, width, left)
    {
      hide Valid, Repeat;
      if !left { Pad(' ', width - 1); }
      Put((c % 256) as char);
      if left { Pad(' ', width - 1); }
      ghost var ch := [(c % 256) as char];
      assert left ==> old(out) + ch + Repeat(' ', width - 1) == old(out) + (ch + Repeat(' ', width - 1));
      assert !left ==> old(out) + Repeat(' ', width - 1) + ch == old(out) + (Repeat(' ', width - 1) + ch);
    }

    /** The case 's'. */
    method PrintText(s: string, width: int, precision: int, left: bool)
      requires Valid()
      modifies this, buf
      ensures Valid() && out == old(out) + Text(s, width, precision, left)
    {
      hide Valid, Repeat;
      var len := 0;
      while len != width && len < |s|
        invariant len <= |s| && (0 <= width ==> len <= width)
        decreases |s| - len
      {
        len := len + 1;
      }
      if precision > 0 && len > precision { len := precision; }
      assert len == TextLength(|s|, width, precision);
      if !left { Pad(' ', width - len); }
      PutAll(s[..len]);
      if left { Pad(' ', width - len); }
      ghost var blanks := Repeat(' ', width - len);
      assert left ==> old(out) + s[..len] + blanks == old(out) + (s[..len] + blanks);
      assert !left ==> old(out) + blanks + s[..len] == old(out) + (blanks + s[..len]);
    }

    /** The conversion of a directive, when flags, width and precision have been read. */
    method PrintConversion(c: char, args: seq<Arg>, f: Flags, width: int, precision: int, half: bool)
      returns (others: seq<Arg>)
      requires Valid()
      modifies this, buf
      ensures Valid()
      ensures forall rest :: Conversion(c, rest, args, f, width, precision, half) ==
                             (Conversion(c, "", args, f, width, precision, half).0, rest, others)
      ensures out == old(out) + Conversion(c, "", args, f, width, precision, half).0
    {
      hide Valid, Number, Character, Text, Value;
      others := Others(args);
      match c
      case 'c' => PrintCharacter(IntOf(args), width, f.left);
      case 's' => PrintText(StrOf(args), width, precision, f.left);
      case 'p' =>
        if width == -1 {
          PrintNumber(Value(IntOf(args), false, false), 16, 8, precision, f.(zero := true));
        } else {
          PrintNumber(Value(IntOf(args), false, false), 16, width, precision, f);
        }
      case '%' => Put('%'); others := args;
      case _ =>
        if IsNumber(c) {
          var signed := c == 'd' || c == 'i';
          var base := if c == 'o' then 8 else if c == 'x' || c == 'X' then 16 else 10;
          PrintNumber(Value(IntOf(args), half, signed), base, width, precision, f.(sign := signed, large := c == 'X'));
        } else {
          Put('%');
          Put(c);
          others := args;
        }
    }

    /** rt_vsnprintf */
    method Print(fmt: string, args: seq<Arg>)
      requires Valid()
      modifies this, buf
      ensures Valid() && out == old(out) + Output(fmt, args)
    {
      hide Valid, Conversion, TakeFlags, TakeWidth, TakePrecision, TakeQualifier;
      var rest, ap := fmt, args;
      while rest != ""
        invariant Valid() && out + Output(rest, ap) == old(out) + Output(fmt, args)
        decreases |rest|
      {
        ghost var before := out;
        if rest[0] != '%' {
          assert before + ([rest[0]] + Output(rest[1..], ap)) == before + [rest[0]] + Output(rest[1..], ap);
          Put(rest[0]);
          rest := rest[1..];
          continue;
        }
        ghost var (text, rest', ap') := Directive(rest[1..], ap);
        assert before + (text + Output(rest', ap')) == before + text + Output(rest', ap');
        var f, r := ReadFlags(rest[1..]);
        var w := ReadWidth(r, ap);
        f := f.(left := f.left || w.left);
        var p := ReadPrecision(w.fmt, w.args);
        var (half, q) := TakeQualifier(p.fmt);
        if q == "" {
          Put('%');
          rest, ap := "", p.args;
        } else {
          ap := PrintConversion(q[0], p.args, f, w.width, p.width, half);
          rest := q[1..];
        }
      }
    }
  }

  /** The loop over the flags. */
  method ReadFlags(fmt: string) returns (f: Flags, r: string)
    ensures (f, r) == TakeFlags(fmt, NO_FLAGS)
  {
    f, r := NO_FLAGS, fmt;
    while r != "" && r[0] in "-+ #0"
      invariant TakeFlags(r, f) == TakeFlags(fmt, NO_FLAGS)
      decreases |r|
    {
      match r[0] {
        case '-' => f := f.(left := true);
        case '+' => f := f.(plus := true);
        case ' ' => f := f.(space := true);
        case '0' => f := f.(zero := true);
        case _ =>
      }
      r := r[1..];
    }
  }

  /** skip_atoi */
  method SkipAtoi(s: string) returns (i: nat, rest: string)
    ensures (i, rest) == Atoi(s, 0)
  {
    i, rest := 0, s;
    while rest != "" && IsDigit(rest[0])
      invariant Atoi(rest, i) == Atoi(s, 0)
      decreases |rest|
    {
      i, rest := i * 10 + (rest[0] as int - '0' as int), rest[1..];
    }
  }

  /** Last character first. */
  function Reversed(s: string): (r: string)
    ensures |r| == |s|
  {
    if s == "" then "" else [s[|s| - 1]] + Reversed(s[..|s| - 1])
  }

  /** The digit loop of print_number: the last digit comes first.  Its buffer has 16 characters. */
  method Collect(m: nat, base: nat, large: bool) returns (tmp: string)
    requires m < 0x1_0000_0000
    ensures |tmp| <= 16 && Reversed(tmp) == Digits(m, base, large)
  {
    DigitsFit(m, base, large);
    if m == 0 { return "0"; }
    hide Digits, Divide, Upper, DigitChar, Reversed;
    UpperAll(m, base, large);
    tmp := "";
    var n: nat := m;
    while n != 0
      invariant Upper(n, base, large) + Reversed(tmp) == Digits(m, base, large)
      decreases n
    {
      CollectNext(n, base, large, tmp);
      assert |tmp| < 16;
      var (res, rest) := Divide(n, base);
      tmp := tmp + [DigitChar(res, large)];
      n := rest;
    }
    UpperNone(base, large);
    assert "" + Reversed(tmp) == Reversed(tmp);
  }

  lemma CollectNext(n: nat, base: nat, large: bool, tmp: string)
    requires n > 0
    ensures Divide(n, base).0 < 16
    ensures var c := DigitChar(Divide(n, base).0, large);
            Upper(Divide(n, base).1, base, large) + Reversed(tmp + [c]) == Upper(n, base, large) + Reversed(tmp)
  {
    UpperNext(n, base, large);
    hide Upper, Divide, DigitChar;
    var c := DigitChar(Divide(n, base).0, large);
    assert (tmp + [c])[..|tmp|] == tmp;
    var u := Upper(Divide(n, base).1, base, large);
    assert u + [c] + Reversed(tmp) == u + ([c] + Reversed(tmp));
  }

  lemma UpperAll(m: nat, base: nat, large: bool)
    requires m > 0
    ensures Upper(m, base, large) + Reversed("") == Digits(m, base, large)
  {
    assert Digits(m, base, large) + "" == Digits(m, base, large);
  }

  /** The digits that are still to be taken from the front. */
  function Upper(n: nat, base: nat, large: bool): string {
    if n == 0 then "" else Digits(n, base, large)
  }

  /** divide: the last digit and the number without it. */
  function Divide(n: nat, base: nat): (r: (nat, nat))
    ensures r.0 < 16 && (n > 0 ==> r.1 < n)
  {
    (n % Radix(base), n / Radix(base))
  }

  lemma UpperNext(n: nat, base: nat, large: bool)
    requires n > 0
    ensures Upper(n, base, large) == Upper(Divide(n, base).1, base, large) + [DigitChar(Divide(n, base).0, large)]
  {
  }

  lemma UpperNone(base: nat, large: bool)
    ensures Upper(0, base, large) == ""
  {
  }

  lemma NumberIs(num: int, base: nat, width: int, precision: int, f: Flags, tmp: string, least: int, pad: int)
    requires -0x8000_0000 <= num < 0x8000_0000 && Reversed(tmp) == Digits(Magnitude(num, f.sign), base, f.large)
    requires least == if |tmp| > precision then |tmp| else precision
    requires pad == width - least - |SignOf(num, f)|
    ensures Number(num, base, width, precision, f) ==
            (if f.left || f.zero then "" else Repeat(' ', pad)) + SignOf(num, f)
                + (if f.zero && !f.left then Repeat('0', pad) else "")
            + Repeat('0', least - |tmp|) + (if precision == 0 then "" else Reversed(tmp))
                + (if f.left then Repeat(' ', pad) else "")
  {
    hide Repeat, Digits, Reversed, SignOf, Magnitude;
  }

  lemma Joined(o: string, a: string, b: string, c: string, d: string, e: string, f: string)
    ensures o + a + b + c + d + e + f == o + (a + b + c + d + e + f)
  {
  }

  /** The field width, from digits or from an argument. */
  method ReadWidth(fmt: string, args: seq<Arg>) returns (w: Field)
    ensures w == TakeWidth(fmt, args)
  {
    if fmt != "" && IsDigit(fmt[0]) {
      var i, rest := SkipAtoi(fmt);
      return Field(i, false, rest, args);
    }
    if fmt != "" && fmt[0] == '*' {
      var i := IntOf(args);
      return if i < 0 then Field(-i, true, fmt[1..], Others(args)) else Field(i, false, fmt[1..], Others(args));
    }
    return Field(-1, false, fmt, args);
  }

  /** The precision, from digits or from an argument; a dot alone means 0. */
  method ReadPrecision(fmt: string, args: seq<Arg>) returns (p: Field)
    ensures p == TakePrecision(fmt, args)
  {
    if fmt == "" || fmt[0] != '.' { return Field(-1, false, fmt, args); }
    var t := fmt[1..];
    if t != "" && IsDigit(t[0]) {
      var i, rest := SkipAtoi(t);
      return Field(i, false, rest, args);
    }
    if t != "" && t[0] == '*' {
      var i := IntOf(args);
      return Field(if i < 0 then 0 else i, false, t[1..], Others(args));
    }
    return Field(0, false, t, args);
  }

  /** rt_vsnprintf: the length does not depend on `size`, nothing is written at or beyond `size`, and
      inside there is as much of the output as fits, with a NUL behind it.  `buf` is the memory from the
      buffer to the end of the address space, in which a larger size ends one byte early. */
  method Vsnprintf(buf: array<char>, size: nat, fmt: string, args: seq<Arg>) returns (length: nat)
    requires buf.Length > 0
    modifies buf
    ensures length == |Output(fmt, args)|
    ensures buf[..] == Clipped(old(buf[..]), Clamped(size, buf.Length), Output(fmt, args))
  {
    hide Output, Clipped;
    ghost var was: string := buf[..];
    var size := if size >= buf.Length then buf.Length - 1 else size;
    var p := new Printer(buf, size);
    p.Print(fmt, args);
    length := p.str;
    assert p.out == "" + Output(fmt, args) == Output(fmt, args);
    ghost var w: string := buf[..];
    Terminated(was, w, size, p.out);
    if size > 0 {
      var end := if length < size then length else size - 1;
      buf[end] := '\0';
      assert buf[..] == w[end := '\0'];
    }
  }

  /** rt_vsprintf, which passes the largest size there is: an output that the memory can hold is written
      whole, with a NUL behind it, and nothing else changes. */
  method Vsprintf(buf: array<char>, fmt: string, args: seq<Arg>) returns (length: nat)
    requires 0 < buf.Length < 0x1_0000_0000
    modifies buf
    ensures length == |Output(fmt, args)|
    ensures length + 1 < buf.Length ==> buf[..] == Output(fmt, args) + "\0" + old(buf[..])[length + 1..]
  {
    hide Output;
    length := Vsnprintf(buf, 0xFFFF_FFFF, fmt, args);
  }

  /** The final NUL. */
  lemma Terminated(was: string, w: string, size: nat, out: string)
    requires size <= |was| == |w|
    requires forall i {:trigger w[i]} :: 0 <= i < |w| ==> w[i] == if i < size && i < |out| then out[i] else was[i]
    ensures if size == 0 then w == Clipped(was, size, out)
            else w[(if |out| < size then |out| else size - 1) := '\0'] == Clipped(was, size, out)
  {
    var r := Clipped(was, size, out);
    if size == 0 {
      assert w == was;
    } else {
      var end := if |out| < size then |out| else size - 1;
      var v := w[end := '\0'];
      forall i | 0 <= i < |w| ensures v[i] == r[i] {
        if i > end && |out| < size {
          assert r[i] == was[|out| + 1..][i - |out| - 1];
        } else if i > end {
          assert r[i] == was[size..][i - size];
        }
      }
    }
  }
}
