/** `parse_integer` of type_hints.py, the parser of every address and length
    option: an integer is kept, a text is read with `int(value, 10)`, then
    `int(value, 16)`, then `int(value, 2)`, and the first that accepts it
    wins.  `int(text, base)` is modelled on unsigned digit strings: the
    digits of the base, upper or lower case, after the prefix "0x"/"0X"
    (base 16) or "0b"/"0B" (base 2) that Python allows when the base is
    given. */
module IntegerOption {
  import opened Errors

  /** An option value as the command line hands it over. */
  datatype IntArg = IntValue(n: int) | Text(s: string)

  /** The value of a digit character in the bases up to 36, or 36 for a
      character that is no digit at all. */
  function DigitValue(c: char): nat
  {
    if '0' <= c <= '9' then c as int - '0' as int
    else if 'a' <= c <= 'z' then c as int - 'a' as int + 10
    else if 'A' <= c <= 'Z' then c as int - 'A' as int + 10
    else 36
  }

  /** A non-empty string of digits of `base`. */
  predicate IsDigits(s: string, base: nat)
  {
    |s| > 0 && forall i :: 0 <= i < |s| ==> DigitValue(s[i]) < base
  }

  /** The number the digits of `s` write in `base`, most significant first. */
  function Value(s: string, base: nat): nat
    decreases |s|
  {
    if s == [] then 0 else Value(s[..|s| - 1], base) * base + DigitValue(s[|s| - 1])
  }

  predicate HasPrefix(s: string, lower: char, upper: char)
  {
    |s| >= 2 && s[0] == '0' && (s[1] == lower || s[1] == upper)
  }

  /** The digits `int(s, base)` reads: after "0x" for base 16 and after
      "0b" for base 2, when present. */
  function Body(s: string, base: nat): (r: string)
    ensures (base == 16 && HasPrefix(s, 'x', 'X')) || (base == 2 && HasPrefix(s, 'b', 'B')) ==> r == s[2..]
    ensures !(base == 16 && HasPrefix(s, 'x', 'X')) && !(base == 2 && HasPrefix(s, 'b', 'B')) ==> r == s
  {
    if base == 16 && HasPrefix(s, 'x', 'X') then s[2..]
    else if base == 2 && HasPrefix(s, 'b', 'B') then s[2..]
    else s
  }

  /** `int(s, base)`. */
  function IntOf(s: string, base: nat): (r: Result<int>)
    ensures r.Ok? <==> IsDigits(Body(s, base), base)
    ensures r.Ok? ==> r.value == Value(Body(s, base), base)
  {
    var body := Body(s, base);
    if IsDigits(body, base) then Ok(Value(body, base)) else Err(NotANumber(s))
  }

  /** `parse_integer`, as written: bases 10, 16 and 2, in that order; the
      first base that accepts a text decides its value, and a text no base
      accepts is refused. */
  function ParseInteger(arg: IntArg): (r: Result<int>)
    ensures arg.IntValue? ==> r == Ok(arg.n)
    ensures arg.Text? ==> (r.Ok? <==> IntOf(arg.s, 10).Ok? || IntOf(arg.s, 16).Ok? || IntOf(arg.s, 2).Ok?)
    ensures arg.Text? && IntOf(arg.s, 10).Ok? ==> r == IntOf(arg.s, 10)
    ensures arg.Text? && IntOf(arg.s, 10).Err? && IntOf(arg.s, 16).Ok? ==> r == IntOf(arg.s, 16)
    ensures arg.Text? && r.Err? ==> r == Err(NotANumber(arg.s))
  {
    match arg
    case IntValue(n) => Ok(n)
    case Text(s) =>
      if IntOf(s, 10).Ok? then IntOf(s, 10)
      else if IntOf(s, 16).Ok? then IntOf(s, 16)
      else if IntOf(s, 2).Ok? then IntOf(s, 2)
      else Err(NotANumber(s))
  }

  /** Anything `int(s, 2)` accepts, base 10 or base 16 accepted first: a
      string of binary digits is decimal, and "0b" followed by binary
      digits is hexadecimal, `b` being a hex digit. */
  lemma BinaryShadowed(s: string)
    ensures IntOf(s, 2).Ok? ==> IntOf(s, 10).Ok? || IntOf(s, 16).Ok?
  {
    if IntOf(s, 2).Ok? {
      if HasPrefix(s, 'b', 'B') {
        assert Body(s, 16) == s;
        forall i | 0 <= i < |s| ensures DigitValue(s[i]) < 16 {
          if i >= 2 {
            assert s[i] == Body(s, 2)[i - 2];
          }
        }
      } else {
        assert Body(s, 10) == s;
      }
    }
  }

  /** What `parse_integer` returns: an integer unchanged; a decimal text in
      base 10 (so "10" is ten); any other text that is hexadecimal, with or
      without "0x", in base 16; and an error for every other text.  The
      base-2 attempt never decides anything. */
  lemma ParseIntegerResult(arg: IntArg)
    ensures arg.IntValue? ==> ParseInteger(arg) == Ok(arg.n)
    ensures arg.Text? && IsDigits(arg.s, 10) ==> ParseInteger(arg) == Ok(Value(arg.s, 10))
    ensures arg.Text? && !IsDigits(arg.s, 10) && IsDigits(Body(arg.s, 16), 16) ==>
      ParseInteger(arg) == Ok(Value(Body(arg.s, 16), 16))
    ensures arg.Text? ==>
      (ParseInteger(arg).Err? <==> !IsDigits(arg.s, 10) && !IsDigits(Body(arg.s, 16), 16))
    ensures arg.Text? && ParseInteger(arg).Err? ==> ParseInteger(arg) == Err(NotANumber(arg.s))
  {
    if arg.Text? {
      BinaryShadowed(arg.s);
    }
  }

  /** "10" is ten, not sixteen. */
  lemma ExampleDecimal()
    ensures ParseInteger(Text("10")) == Ok(10)
  {
    assert IsDigits("10", 10);
    assert Value("10", 10) == 10 by {
      assert "10"[..1] == "1";
    }
  }

  lemma ExampleHexPrefix()
    ensures ParseInteger(Text("0x1F")) == Ok(31)
  {
    assert !IsDigits("0x1F", 10) by {
      assert DigitValue("0x1F"[1]) == 33;
    }
    assert Body("0x1F", 16) == "1F";
    assert Value("1F", 16) == 31 by {
      assert "1F"[..1] == "1";
    }
  }

  lemma ExampleHexLetters()
    ensures ParseInteger(Text("ff")) == Ok(255)
  {
    assert !IsDigits("ff", 10) by {
      assert DigitValue("ff"[0]) == 15;
    }
    assert Value("ff", 16) == 255 by {
      assert "ff"[..1] == "f";
    }
  }

  /** "0b101" is read as the hexadecimal number 0xb101. */
  lemma ExampleBinaryAsHex()
    ensures ParseInteger(Text("0b101")) == Ok(0xb101)
  {
    assert !IsDigits("0b101", 10) by {
      assert DigitValue("0b101"[1]) == 11;
    }
    assert Body("0b101", 16) == "0b101";
    assert Value("0b101", 16) == 0xb101 by {
      assert "0b101"[..4] == "0b10";
      assert "0b10"[..3] == "0b1";
      assert "0b1"[..2] == "0b";
      assert "0b"[..1] == "0";
    }
  }

  /** A prefix without digits is no number in any base. */
  lemma ExamplePrefixOnly()
    ensures ParseInteger(Text("0x")) == Err(NotANumber("0x"))
  {
    assert !IsDigits("0x", 10) by {
      assert DigitValue("0x"[1]) == 33;
    }
    assert Body("0x", 16) == [];
    assert Body("0x", 2) == "0x";
  }

  // ---------------------------------------------------------------------
  // The evident intent: a "0b" text is binary

  /** `parse_integer` with the binary prefix honoured before the
      hexadecimal reading: a text "0b..." over binary digits is read in
      base 2, every other text as before. */
  function ParseIntegerIntended(arg: IntArg): (r: Result<int>)
    ensures arg.Text? && HasPrefix(arg.s, 'b', 'B') && IsDigits(arg.s[2..], 2) ==> r == Ok(Value(arg.s[2..], 2))
    ensures arg.IntValue? || !HasPrefix(arg.s, 'b', 'B') ==> r == ParseInteger(arg)
  {
    match arg
    case IntValue(n) => Ok(n)
    case Text(s) =>
      if HasPrefix(s, 'b', 'B') && IntOf(s, 2).Ok? then IntOf(s, 2)
      else ParseInteger(arg)
  }

  /** With the prefix honoured "0b101" is five. */
  lemma ExampleBinaryIntended()
    ensures ParseIntegerIntended(Text("0b101")) == Ok(5)
  {
    var d := "0b101"[2..];
    assert d == "101";
    assert IsDigits(d, 2);
    assert Value("101", 2) == 5 by {
      assert "101"[..2] == "10";
      assert "10"[..1] == "1";
    }
  }
}
