/** The part of Python 2's string formatting that the pipeline uses:
    `%d` / `str()` of an integer, and the `%` operator with the conversions
    `%s`, `%d` and `%%`. */
module PyFormat {
  import opened Wrappers

  // ---------------------------------------------------------------------
  // Decimal rendering of integers (`"%d" % n`, `str(n)`)
  // ---------------------------------------------------------------------

  function DigitChar(d: nat): (c: char)
    requires d < 10
    ensures '0' <= c <= '9'
  {
    "0123456789"[d]
  }

  predicate IsDigit(c: char) { '0' <= c <= '9' }

  function DigitValue(c: char): (d: nat)
    requires IsDigit(c)
    ensures d < 10 && DigitChar(d) == c
  {
    (c as int - '0' as int) as nat
  }

  /** The digits of a natural number, most significant first, without
      leading zeros. */
  function Digits(n: nat): (s: string)
    ensures |s| > 0
    ensures forall i :: 0 <= i < |s| ==> IsDigit(s[i])
    ensures s[0] == '0' ==> s == "0"
  {
    if n < 10 then [DigitChar(n)] else Digits(n / 10) + [DigitChar(n % 10)]
  }

  /** What `"%d" % n` and `str(n)` produce for an integer `n`. */
  function Decimal(n: int): (s: string)
    ensures |s| > 0
    ensures forall i :: 0 <= i < |s| ==> IsDigit(s[i]) || (i == 0 && s[i] == '-')
    ensures s[0] == '-' <==> n < 0
  {
    if n < 0 then "-" + Digits(-n) else Digits(n)
  }

  /** Reads a non-empty string of decimal digits. */
  function ParseDigits(s: string): (r: Option<nat>)
    ensures r.Some? <==> s != [] && forall i :: 0 <= i < |s| ==> IsDigit(s[i])
  {
    if s == [] || !IsDigit(s[|s| - 1]) then None
    else if |s| == 1 then Some(DigitValue(s[0]))
    else match ParseDigits(s[..|s| - 1])
      case None => None
      case Some(m) => Some(10 * m + DigitValue(s[|s| - 1]))
  }

  /** Reads an optionally negative decimal integer: the inverse of Decimal. */
  function ParseDecimal(s: string): Option<int>
  {
    if s != [] && s[0] == '-' then
      match ParseDigits(s[1..])
      case None => None
      case Some(m) => Some(-(m as int))
    else
      match ParseDigits(s)
      case None => None
      case Some(m) => Some(m)
  }

  lemma {:induction false} ParseDigitsOfDigits(n: nat)
    ensures ParseDigits(Digits(n)) == Some(n)
  {
    if n >= 10 {
      var s := Digits(n);
      assert s[..|s| - 1] == Digits(n / 10);
      ParseDigitsOfDigits(n / 10);
    }
  }

  /** Decimal loses nothing: the number is read back from its rendering. */
  lemma DecimalRoundTrip(n: int)
    ensures ParseDecimal(Decimal(n)) == Some(n)
  {
    var s := Decimal(n);
    if n < 0 {
      assert s[0] == '-' && s[1..] == Digits(-n);
      ParseDigitsOfDigits(-n);
    } else {
      assert s == Digits(n) && IsDigit(s[0]);
      ParseDigitsOfDigits(n);
    }
  }

  /** Two integers with the same rendering are equal. */
  lemma DecimalInjective(m: int, n: int)
    requires Decimal(m) == Decimal(n)
    ensures m == n
  {
    DecimalRoundTrip(m);
    DecimalRoundTrip(n);
  }

  // ---------------------------------------------------------------------
  // The `%` operator: `fmt % (arg, ...)`
  // ---------------------------------------------------------------------

  datatype Arg = Str(s: string) | Int(n: int)

  /** The exceptions Python raises for a format string and argument tuple
      that do not fit together. */
  datatype FormatError =
    | NotEnoughArguments          // TypeError: not enough arguments for format string
    | NotAllConverted             // TypeError: not all arguments converted
    | NumberRequired              // TypeError: %d format: a number is required
    | IncompleteFormat            // ValueError: incomplete format
    | UnsupportedFormat(c: char)  // a conversion outside %s, %d, %%

  /** The text one conversion produces for one argument. */
  function Convert(conv: char, a: Arg): (r: Result<string, FormatError>)
    requires conv == 's' || conv == 'd'
    ensures r.Err? <==> conv == 'd' && a.Str?
  {
    match a
    case Str(s) => if conv == 's' then Ok(s) else Err(NumberRequired)
    case Int(n) => Ok(Decimal(n))
  }

  /** `head` followed by what the rest of the format produced, or the rest's
      error. */
  function Prepend(head: string, rest: Result<string, FormatError>): Result<string, FormatError>
  {
    match rest
    case Err(e) => Err(e)
    case Ok(tail) => Ok(head + tail)
  }

  /** `fmt % tuple(args)`, scanning the format left to right as CPython does. */
  function Format(fmt: string, args: seq<Arg>): (r: Result<string, FormatError>)
    decreases |fmt|
  {
    if fmt == [] then
      if args == [] then Ok("") else Err(NotAllConverted)
    else if fmt[0] != '%' then
      Prepend([fmt[0]], Format(fmt[1..], args))
    else if |fmt| == 1 then
      Err(IncompleteFormat)
    else if fmt[1] == '%' then
      Prepend("%", Format(fmt[2..], args))
    else if fmt[1] == 's' || fmt[1] == 'd' then
      if args == [] then Err(NotEnoughArguments)
      else
        match Convert(fmt[1], args[0])
        case Err(e) => Err(e)
        case Ok(head) => Prepend(head, Format(fmt[2..], args[1..]))
    else
      Err(UnsupportedFormat(fmt[1]))
  }

  /** A format without `%` is its own result when no argument is given, and
      rejects any argument. */
  lemma {:induction false} FormatLiteral(fmt: string, args: seq<Arg>)
    requires forall i :: 0 <= i < |fmt| ==> fmt[i] != '%'
    ensures Format(fmt, args) == if args == [] then Ok(fmt) else Err(NotAllConverted)
  {
    if fmt != [] {
      FormatLiteral(fmt[1..], args);
      assert [fmt[0]] + fmt[1..] == fmt;
    }
  }

  /** Formatting distributes over concatenation: a format that consumes
      exactly its own arguments can be followed by another one. */
  lemma {:induction false} FormatConcat(f1: string, a1: seq<Arg>, f2: string, a2: seq<Arg>)
    requires Format(f1, a1).Ok? && Format(f2, a2).Ok?
    ensures Format(f1 + f2, a1 + a2) == Ok(Format(f1, a1).value + Format(f2, a2).value)
    decreases |f1|, 1
  {
    if f1 == [] {
      assert a1 == [] && Format(f1, a1).value == "";
      assert f1 + f2 == f2;
      assert a1 + a2 == a2;
      assert "" + Format(f2, a2).value == Format(f2, a2).value;
    } else if f1[0] != '%' {
      ConcatLiteral(f1, a1, f2, a2);
    } else if f1[1] == '%' {
      ConcatEscape(f1, a1, f2, a2);
    } else {
      ConcatConversion(f1, a1, f2, a2);
    }
  }

  /** FormatConcat when `f1` starts with a plain character. */
  lemma {:induction false} ConcatLiteral(f1: string, a1: seq<Arg>, f2: string, a2: seq<Arg>)
    requires Format(f1, a1).Ok? && Format(f2, a2).Ok?
    requires f1 != [] && f1[0] != '%'
    ensures Format(f1 + f2, a1 + a2) == Ok(Format(f1, a1).value + Format(f2, a2).value)
    decreases |f1|, 0
  {
    var f, a := f1 + f2, a1 + a2;
    assert f[0] == f1[0] && f[1..] == f1[1..] + f2;
    assert Format(f1, a1) == Prepend([f1[0]], Format(f1[1..], a1));
    FormatConcat(f1[1..], a1, f2, a2);
    assert Format(f, a) == Prepend([f1[0]], Format(f1[1..] + f2, a));
    var x, y := Format(f1[1..], a1).value, Format(f2, a2).value;
    assert [f1[0]] + (x + y) == ([f1[0]] + x) + y;
  }

  /** FormatConcat when `f1` starts with `%%`. */
  lemma {:induction false} ConcatEscape(f1: string, a1: seq<Arg>, f2: string, a2: seq<Arg>)
    requires Format(f1, a1).Ok? && Format(f2, a2).Ok?
    requires |f1| >= 2 && f1[0] == '%' && f1[1] == '%'
    ensures Format(f1 + f2, a1 + a2) == Ok(Format(f1, a1).value + Format(f2, a2).value)
    decreases |f1|, 0
  {
    var f, a := f1 + f2, a1 + a2;
    assert f[0] == '%' && f[1] == '%' && f[2..] == f1[2..] + f2;
    assert Format(f1, a1) == Prepend("%", Format(f1[2..], a1));
    FormatConcat(f1[2..], a1, f2, a2);
    assert Format(f, a) == Prepend("%", Format(f1[2..] + f2, a));
    var x, y := Format(f1[2..], a1).value, Format(f2, a2).value;
    assert "%" + (x + y) == ("%" + x) + y;
  }

  /** FormatConcat when `f1` starts with a conversion. */
  lemma {:induction false} ConcatConversion(f1: string, a1: seq<Arg>, f2: string, a2: seq<Arg>)
    requires Format(f1, a1).Ok? && Format(f2, a2).Ok?
    requires f1 != [] && f1[0] == '%' && !(|f1| >= 2 && f1[1] == '%')
    ensures Format(f1 + f2, a1 + a2) == Ok(Format(f1, a1).value + Format(f2, a2).value)
    decreases |f1|, 0
  {
    var f, a := f1 + f2, a1 + a2;
    ConversionSplit(f1, a1, f2, a2);
    var h := Convert(f1[1], a1[0]);
    assert h.Ok?;
    assert Format(f1, a1) == Prepend(h.value, Format(f1[2..], a1[1..]));
    FormatConcat(f1[2..], a1[1..], f2, a2);
    assert Format(f, a) == Prepend(h.value, Format(f1[2..] + f2, a1[1..] + a2));
    var x, y := Format(f1[2..], a1[1..]).value, Format(f2, a2).value;
    assert h.value + (x + y) == (h.value + x) + y;
  }

  /** How a format that starts with a conversion, and its arguments, split
      when a second format and its arguments follow. */
  lemma ConversionSplit(f1: string, a1: seq<Arg>, f2: string, a2: seq<Arg>)
    requires Format(f1, a1).Ok?
    requires f1 != [] && f1[0] == '%' && !(|f1| >= 2 && f1[1] == '%')
    ensures |f1| >= 2 && (f1[1] == 's' || f1[1] == 'd') && a1 != []
    ensures var f, a := f1 + f2, a1 + a2;
      f[0] == '%' && f[1] == f1[1] && f[2..] == f1[2..] + f2 && a[0] == a1[0] && a[1..] == a1[1..] + a2
  {
    assert |f1| >= 2 && (f1[1] == 's' || f1[1] == 'd') && a1 != [];
    assert (f1 + f2)[2..] == f1[2..] + f2;
    assert (a1 + a2)[1..] == a1[1..] + a2;
  }

  /** One conversion alone renders its argument. */
  lemma FormatOne(conv: char, a: Arg)
    requires conv == 's' || conv == 'd'
    requires conv == 'd' ==> a.Int?
    ensures Format(['%', conv], [a]) == Convert(conv, a)
  {
    assert ['%', conv][2..] == [];
    assert [a][1..] == [];
    assert Format([], []) == Ok("");
    if Convert(conv, a).Ok? {
      assert Convert(conv, a).value + "" == Convert(conv, a).value;
    }
  }
}
