/** The text the timer reads and writes: `Integer.parseInt` on the two input
    fields, and the decimal, zero-padded numbers of the `Timer: MM:SS` label. */
module JavaText {
  import opened JavaInt

  datatype Option<T> = None | Some(value: T)

  predicate IsDigit(ch: char) {
    '0' <= ch <= '9'
  }

  predicate AllDigits(s: string) {
    forall i :: 0 <= i < |s| ==> IsDigit(s[i])
  }

  function DigitValue(ch: char): (d: nat)
    requires IsDigit(ch)
    ensures d < 10
  {
    ch as int - '0' as int
  }

  function DigitChar(d: nat): (ch: char)
    requires d < 10
    ensures IsDigit(ch) && DigitValue(ch) == d
  {
    ('0' as int + d) as char
  }

  /** The number a string of decimal digits denotes, most significant first. */
  function DigitsValue(s: string): nat
    requires AllDigits(s)
  {
    if s == [] then 0 else DigitsValue(s[..|s| - 1]) * 10 + DigitValue(s[|s| - 1])
  }

  /** `Integer.parseInt(s)` in radix 10: an optional leading `-` or `+`, then at
      least one digit, and a value within the `int` range. Any other text is the
      `NumberFormatException` case, here `None`. */
  function ParseInt(s: string): (r: Option<int>)
    ensures r.Some? ==> IsInt32(r.value)
    ensures s == [] ==> r == None
    ensures r.Some? ==> AllDigits(s[1..]) && (IsDigit(s[0]) || ((s[0] == '-' || s[0] == '+') && |s| >= 2))
  {
    if s == [] then None
    else
      var signed := s[0] == '-' || s[0] == '+';
      var body := if signed then s[1..] else s;
      if body == [] || !AllDigits(body) then None
      else
        var v: int := if s[0] == '-' then -(DigitsValue(body) as int) else DigitsValue(body);
        if IsInt32(v) then Some(v) else None
  }

  /** The shortest decimal digits of a natural number (Java's `Integer.toString`
      on a non-negative value). */
  function ShowNat(n: nat): (s: string)
    ensures |s| >= 1 && AllDigits(s)
    ensures n < 10 <==> |s| == 1
    ensures n >= 1 ==> s[0] != '0'
  {
    if n < 10 then [DigitChar(n)] else ShowNat(n / 10) + [DigitChar(n % 10)]
  }

  /** Java's `Integer.toString` on any value. */
  function ShowInt(x: int): (s: string)
    ensures |s| >= 1
  {
    if x < 0 then "-" + ShowNat(-x) else ShowNat(x)
  }

  /** `String.format("%02d", n)` for a non-negative `n`: at least two digits,
      zero-padded on the left. */
  function Pad2(n: nat): (s: string)
    ensures AllDigits(s)
    ensures |s| >= 2
    ensures n < 100 <==> |s| == 2
    ensures n < 10 <==> s[0] == '0'
  {
    if n < 10 then "0" + ShowNat(n) else ShowNat(n)
  }

  lemma {:induction false} ShowNatValue(n: nat)
    ensures DigitsValue(ShowNat(n)) == n
  {
    var s := ShowNat(n);
    if n >= 10 {
      ShowNatValue(n / 10);
      assert s[..|s| - 1] == ShowNat(n / 10);
    }
  }

  lemma {:induction false} LeadingZeroValue(s: string)
    requires AllDigits(s)
    ensures AllDigits("0" + s) && DigitsValue("0" + s) == DigitsValue(s)
  {
    var t := "0" + s;
    if s != [] {
      assert t[..|t| - 1] == "0" + s[..|s| - 1];
      LeadingZeroValue(s[..|s| - 1]);
    }
  }

  /** Parsing what `Integer.toString` prints gives the value back. */
  lemma ParseShowInt(x: int)
    requires IsInt32(x)
    ensures ParseInt(ShowInt(x)) == Some(x)
  {
    var s := ShowInt(x);
    if x < 0 {
      var digits := ShowNat(-x);
      ShowNatValue(-x);
      assert s == "-" + digits;
      assert s[0] == '-' && s[1..] == digits;
    } else {
      ShowNatValue(x);
      assert IsDigit(s[0]);
    }
  }

  /** Every text of the accepted shape, an optional sign and at least one digit
      (leading zeros allowed), parses to the value it denotes when that is an
      `int` and is rejected when it is not. With the contract of `ParseInt`,
      which admits nothing of any other shape, this decides every text. */
  lemma ParseSignedDigits(sign: string, d: string)
    requires sign == "" || sign == "+" || sign == "-"
    requires d != [] && AllDigits(d)
    ensures
      var v: int := if sign == "-" then -(DigitsValue(d) as int) else DigitsValue(d);
      ParseInt(sign + d) == if IsInt32(v) then Some(v) else None
  {
    var s := sign + d;
    if sign == "" {
      assert s == d && IsDigit(s[0]);
    } else {
      assert s[0] == sign[0] && s[1..] == d;
    }
  }

  /** The zero-padded digits of the label read back as the number they show. */
  lemma ParsePad2(n: nat)
    requires n <= MaxInt
    ensures ParseInt(Pad2(n)) == Some(n)
  {
    ShowNatValue(n);
    if n < 10 {
      LeadingZeroValue(ShowNat(n));
    }
  }
}
