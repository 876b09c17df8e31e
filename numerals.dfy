/** Decimal numerals as .NET's `int.Parse` and `int.TryParse` read them with the default number
    style: optional white space, optionally one sign, one or more ASCII digits, optional white
    space, any number of trailing '\0' characters, and a value that fits a 32-bit signed
    integer. */
module Numerals {
  import opened Common

  predicate IsDigit(c: char) {
    '0' <= c <= '9'
  }

  function DigitValue(c: char): int
    requires IsDigit(c)
  {
    c as int - '0' as int
  }

  /** The white space .NET lets stand around a number: U+0009 to U+000D and U+0020. */
  predicate IsWhite(c: char) {
    c == ' ' || ('\t' <= c <= '\r')
  }

  predicate AllDigits(s: string) {
    forall i :: 0 <= i < |s| ==> IsDigit(s[i])
  }

  /** The value of a run of digits, most significant first. */
  function DigitsValue(s: string): (n: nat)
    requires AllDigits(s)
    decreases |s|
  {
    if s == [] then 0 else 10 * DigitsValue(s[..|s| - 1]) + DigitValue(s[|s| - 1])
  }

  function TrimStart(s: string): (t: string)
    ensures t != [] ==> !IsWhite(t[0])
    decreases |s|
  {
    if s != [] && IsWhite(s[0]) then TrimStart(s[1..]) else s
  }

  function TrimEnd(s: string): (t: string)
    ensures t != [] ==> !IsWhite(t[|t| - 1])
    decreases |s|
  {
    if s != [] && IsWhite(s[|s| - 1]) then TrimEnd(s[..|s| - 1]) else s
  }

  /** s without the '\0' characters that end it, which .NET ignores after a number. */
  function DropTrailingNuls(s: string): (t: string)
    ensures t != [] ==> t[|t| - 1] != '\0'
    ensures s == [] || s[|s| - 1] != '\0' ==> t == s
    ensures t <= s && forall i :: |t| <= i < |s| ==> s[i] == '\0'
    decreases |s|
  {
    if s != [] && s[|s| - 1] == '\0' then DropTrailingNuls(s[..|s| - 1]) else s
  }

  const Int32Min: int := -0x8000_0000
  const Int32Max: int := 0x7fff_ffff

  /** `int.Parse(s)`: the number s writes (what follows it may end in '\0' characters), FormatException when s is not a numeral and
      OverflowException when its value does not fit 32 bits. */
  function ParseInt32(s: string): (r: Result<int>)
    ensures r.Ok? ==> Int32Min <= r.value <= Int32Max
    ensures r.Err? ==> r.error == Format || r.error == Overflow
  {
    var t := TrimEnd(TrimStart(DropTrailingNuls(s)));
    var signed := t != [] && (t[0] == '+' || t[0] == '-');
    var digits := if signed then t[1..] else t;
    if digits == [] || !AllDigits(digits) then Err(Format)
    else
      var n: int := if signed && t[0] == '-' then -(DigitsValue(digits) as int) else DigitsValue(digits);
      if n < Int32Min || Int32Max < n then Err(Overflow) else Ok(n)
  }

  /** `int.TryParse(s, out n)`: the same reading, with no value instead of an exception. */
  function TryParseInt32(s: string): (r: Option<int>)
    ensures r.Some? <==> ParseInt32(s).Ok?
    ensures r.Some? ==> r.value == ParseInt32(s).value
  {
    match ParseInt32(s)
    case Ok(n) => Some(n)
    case Err(_) => None
  }

  function DigitChar(d: int): (c: char)
    requires 0 <= d <= 9
    ensures IsDigit(c) && DigitValue(c) == d
  {
    '0' + d as char
  }

  /** The shortest decimal numeral of n, as `n.ToString()` writes it. */
  function Decimal(n: nat): (s: string)
    ensures s != [] && AllDigits(s)
  {
    if n < 10 then [DigitChar(n)] else Decimal(n / 10) + [DigitChar(n % 10)]
  }

  /** The numeral of any integer: a '-' before the digits of a negative one. */
  function IntText(n: int): string {
    if n < 0 then "-" + Decimal(-n) else Decimal(n)
  }

  lemma {:induction false} DecimalValue(n: nat)
    ensures DigitsValue(Decimal(n)) == n
  {
    if n >= 10 {
      DecimalValue(n / 10);
      var s := Decimal(n);
      assert s[..|s| - 1] == Decimal(n / 10);
    }
  }

  /** Every 32-bit integer's numeral parses back to that integer. */
  lemma ParseIntText(n: int)
    requires Int32Min <= n <= Int32Max
    ensures ParseInt32(IntText(n)) == Ok(n)
  {
    var s := IntText(n);
    var m: nat := if n < 0 then -n else n;
    var d := Decimal(m);
    DecimalValue(m);
    assert s == (if n < 0 then "-" else "") + d;
    assert TrimStart(s) == s by {
      assert !IsWhite(s[0]);
    }
    assert TrimEnd(s) == s && DropTrailingNuls(s) == s by {
      assert s[|s| - 1] == d[|d| - 1];
      assert !IsWhite(s[|s| - 1]) && s[|s| - 1] != '\0';
    }
    if n < 0 {
      assert s[1..] == d;
      ParseNumeral(s, d, true);
    } else {
      assert !(s[0] == '+' || s[0] == '-') by {
        assert IsDigit(s[0]);
      }
      ParseNumeral(s, d, false);
    }
  }

  lemma ParseNumeral(s: string, d: string, negative: bool)
    requires TrimEnd(TrimStart(s)) == s && DropTrailingNuls(s) == s && d != [] && AllDigits(d)
    requires negative ==> s == "-" + d
    requires !negative ==> s == d && s[0] != '+' && s[0] != '-'
    ensures var n: int := if negative then -(DigitsValue(d) as int) else DigitsValue(d);
      ParseInt32(s) == if n < Int32Min || Int32Max < n then Err(Overflow) else Ok(n)
  {
    if negative {
      assert s[1..] == d;
    }
  }

  /** A run of digits parses to its value, when that fits 32 bits. */
  lemma ParseDigits(s: string)
    requires s != [] && AllDigits(s)
    ensures ParseInt32(s) == if DigitsValue(s) <= Int32Max then Ok(DigitsValue(s)) else Err(Overflow)
  {
    assert IsDigit(s[0]) && IsDigit(s[|s| - 1]);
    assert TrimStart(s) == s && TrimEnd(s) == s && DropTrailingNuls(s) == s;
    ParseNumeral(s, s, false);
  }

  /** A '\0' after the text changes nothing. */
  lemma ParseTrailingNul(s: string)
    ensures ParseInt32(s + ['\0']) == ParseInt32(s)
  {
    assert (s + ['\0'])[..|s|] == s;
  }

  /** White space around the numeral, trailing '\0' characters and a '+' are accepted. */
  lemma ParseInt32Lenient()
    ensures ParseInt32(" 12\t") == Ok(12) && ParseInt32("+7") == Ok(7)
    ensures ParseInt32("7 \0\0") == Ok(7) && ParseInt32("7\0 ") == Err(Format)
  {
    assert DropTrailingNuls(" 12\t") == " 12\t" && DropTrailingNuls("+7") == "+7";
    assert DropTrailingNuls("7\0 ") == "7\0 ";
    assert DropTrailingNuls("7 \0\0") == "7 " by {
      assert "7 \0\0"[..3] == "7 \0" && "7 \0"[..2] == "7 ";
    }
    assert TrimEnd("7 ") == "7" by {
      assert "7 "[..1] == "7";
    }
    assert "7\0 "[..2] == "7\0";
    assert !AllDigits("7\0") by {
      assert !IsDigit("7\0"[1]);
    }
    assert TrimStart(" 12\t") == "12\t" by {
      assert " 12\t"[1..] == "12\t";
    }
    assert TrimEnd("12\t") == "12" by {
      assert "12\t"[..2] == "12";
      assert "12"[..1] == "1";
    }
    assert DigitsValue("12") == 12 by {
      assert "12"[..1] == "1";
      assert "1"[..0] == "";
    }
    assert "+7"[1..] == "7" && "7"[..0] == "";
  }

  /** An empty numeral, a bare sign and a letter are refused. */
  lemma ParseInt32Malformed()
    ensures ParseInt32("") == Err(Format) && ParseInt32("-") == Err(Format) && ParseInt32("x1") == Err(Format)
  {
    assert DropTrailingNuls("") == "" && DropTrailingNuls("-") == "-" && DropTrailingNuls("x1") == "x1";
    assert "-"[1..] == "";
    assert "x1"[..1] == "x";
  }
}
