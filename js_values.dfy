/**
 * The JavaScript values a JSON request body can put in a field, and the
 * coercions the controller and the service apply to them: truthiness,
 * `parseInt` and calling `.trim()` on the value.
 */
module JsValues {
  import opened Wrappers
  import Text

  /** A field of a parsed JSON body. Numbers are the integral ones, held exactly; objects and arrays are not modelled. */
  datatype JsVal = Undefined | Null | Bool(b: bool) | Num(n: int) | Str(s: string)

  /** JavaScript truthiness: `!v` is `!Truthy(v)`. */
  predicate Truthy(v: JsVal)
  {
    match v
    case Undefined => false
    case Null => false
    case Bool(b) => b
    case Num(n) => n != 0
    case Str(s) => s != []
  }

  /** `v === undefined || v === null || v === ''`. */
  predicate Absent(v: JsVal)
  {
    v == Undefined || v == Null || v == Str("")
  }

  function DigitValue(c: char, radix: int): (r: Option<int>)
    requires radix == 10 || radix == 16
    ensures r.Some? ==> 0 <= r.value < radix
  {
    if '0' <= c <= '9' then Some(c as int - '0' as int)
    else if radix == 16 && 'a' <= c <= 'f' then Some(c as int - 'a' as int + 10)
    else if radix == 16 && 'A' <= c <= 'F' then Some(c as int - 'A' as int + 10)
    else None
  }

  /** The longest prefix of `s` made of digits of the radix. */
  function DigitPrefix(s: string, radix: int): (r: string)
    requires radix == 10 || radix == 16
    ensures |r| <= |s| && r == s[..|r|]
    ensures forall i | 0 <= i < |r| :: DigitValue(r[i], radix).Some?
    ensures |r| < |s| ==> DigitValue(s[|r|], radix).None?
  {
    if s != [] && DigitValue(s[0], radix).Some? then [s[0]] + DigitPrefix(s[1..], radix) else []
  }

  /** The number the digits `ds` denote, most significant first. */
  function DigitsValue(ds: string, radix: int): (r: nat)
    requires radix == 10 || radix == 16
    requires forall i | 0 <= i < |ds| :: DigitValue(ds[i], radix).Some?
  {
    if ds == [] then 0
    else DigitsValue(ds[..|ds| - 1], radix) * radix + DigitValue(ds[|ds| - 1], radix).value
  }

  /** The magnitude `parseInt` reads after the sign: a `0x`/`0X` prefix selects
      base 16, then the longest run of digits counts; no digit at all is NaN (`None`). */
  function ParseMagnitude(u: string): (r: Option<nat>)
  {
    var hex := |u| >= 2 && u[0] == '0' && (u[1] == 'x' || u[1] == 'X');
    if hex then
      var ds := DigitPrefix(u[2..], 16);
      if ds == [] then None else Some(DigitsValue(ds, 16))
    else
      var ds := DigitPrefix(u, 10);
      if ds == [] then None else Some(DigitsValue(ds, 10))
  }

  /** An optional sign followed by the magnitude. */
  function ParseSigned(t: string): (r: Option<int>)
  {
    var negative := t != [] && t[0] == '-';
    var u := if t != [] && (t[0] == '-' || t[0] == '+') then t[1..] else t;
    match ParseMagnitude(u)
    case None => None
    case Some(m) => var k: int := m; Some(if negative then -k else k)
  }

  /** `parseInt(s)` with no radix: leading white space is skipped, then a signed magnitude is read. */
  function ParseIntText(s: string): (r: Option<int>)
  {
    ParseSigned(Text.TrimStart(s))
  }

  /** `10` to the power `j`. */
  function Pow10(j: nat): (p: nat)
    ensures p > j
  {
    if j == 0 then 1 else 10 * Pow10(j - 1)
  }

  /** The smallest magnitude that `String` writes in exponential notation: 1e21. */
  const ExponentialFrom: nat := Pow10(21)

  /** The text without its trailing `0` characters. */
  function DropTrailingZeros(s: string): (r: string)
    ensures |r| <= |s| && r == s[..|r|]
    ensures r != [] ==> r[|r| - 1] != '0'
  {
    if s != [] && s[|s| - 1] == '0' then DropTrailingZeros(s[..|s| - 1]) else s
  }

  /** What `String(m)` writes after the first digit of a number of 1e21 or
      more: `.` and the other significant digits when there are any, then
      `e+` and the exponent. */
  function ExponentialTail(m: nat): (r: string)
    ensures r != [] && (r[0] == '.' || r[0] == 'e')
  {
    var digits := Text.NatToDecimal(m);
    var mantissa := DropTrailingZeros(digits[1..]);
    (if mantissa == [] then "" else "." + mantissa) + "e+" + Text.NatToDecimal(|digits| - 1)
  }

  /** The first decimal digit of `m`. */
  function LeadingDigit(m: nat): (d: nat)
    ensures d < 10 && (m > 0 ==> d > 0)
    ensures Text.NatToDecimal(m)[0] == Text.DigitChar(d)
    decreases m
  {
    if m < 10 then m else LeadingDigit(m / 10)
  }

  /** The absolute value. */
  function Magnitude(n: int): (m: nat)
    ensures m == n || m == -n
  {
    if n < 0 then -n else n
  }

  /** `String(m)` of a magnitude: its decimal digits below 1e21, and from
      there on exponential notation, the first digit followed by the tail. */
  function MagnitudeText(m: nat): (r: string)
  {
    if m < ExponentialFrom then Text.NatToDecimal(m)
    else Text.NatToDecimal(LeadingDigit(m)) + ExponentialTail(m)
  }

  /** What `parseInt` reads from the text of a magnitude: all of it below
      1e21, and only the first digit from there on. */
  function MagnitudeValue(m: nat): (k: nat)
  {
    if m < ExponentialFrom then m else LeadingDigit(m)
  }

  /** `String(n)` of an integral number: a minus sign when `n` is negative,
      then the text of its magnitude. */
  function NumberToString(n: int): (r: string)
  {
    if n < 0 then "-" + MagnitudeText(Magnitude(n)) else MagnitudeText(Magnitude(n))
  }

  /** Below 1e21 `String(n)` is the decimal text of `n`. */
  lemma PlainNumberText(n: int)
    requires Magnitude(n) < ExponentialFrom
    ensures NumberToString(n) == Text.IntToDecimal(n)
  {
  }

  /** The text of a magnitude starts with a digit, and its digits are read as its value. */
  lemma MagnitudeTextValue(m: nat)
    ensures MagnitudeText(m) != [] && Text.IsDigit(MagnitudeText(m)[0])
    ensures ParseMagnitude(MagnitudeText(m)) == Some(MagnitudeValue(m))
  {
    if m < ExponentialFrom {
      assert MagnitudeText(m) == Text.NatToDecimal(m) + [];
      MagnitudeOfDigits(m, []);
    } else {
      assert Text.NatToDecimal(LeadingDigit(m)) == [Text.DigitChar(LeadingDigit(m))];
      MagnitudeOfDigits(LeadingDigit(m), ExponentialTail(m));
    }
  }

  /** `parseInt(n)` of a number is the reading of its text `String(n)`. */
  lemma ParseIntOfNumberText(n: int)
    ensures ParseInt(Num(n)) == ParseIntText(NumberToString(n))
  {
    if n < 0 {
      NegativeNumberReads(n);
    } else {
      NonNegativeNumberReads(n);
    }
  }

  lemma NonNegativeNumberReads(n: int)
    requires n >= 0
    ensures ParseIntText(NumberToString(n)) == Some(MagnitudeValue(Magnitude(n)))
  {
    MagnitudeTextValue(Magnitude(n));
    UnsignedReads(MagnitudeText(Magnitude(n)), MagnitudeValue(Magnitude(n)));
  }

  lemma NegativeNumberReads(n: int)
    requires n < 0
    ensures ParseIntText(NumberToString(n)) == Some(-(MagnitudeValue(Magnitude(n)) as int))
  {
    MagnitudeTextValue(Magnitude(n));
    NegatedMagnitude(MagnitudeText(Magnitude(n)), MagnitudeValue(Magnitude(n)));
  }

  /** A magnitude that starts with a digit is read as it is, with no sign. */
  lemma UnsignedReads(u: string, k: nat)
    requires u != [] && Text.IsDigit(u[0]) && ParseMagnitude(u) == Some(k)
    ensures ParseIntText(u) == Some(k)
  {
    Text.TrimStartKeeps(u);
  }

  /** `parseInt(v)`: a number is read from its text `String(v)`, which keeps
      it below 1e21 in magnitude and only its signed first digit from there
      on (`ParseIntOfNumberText`); `true`, `false`, `null` and `undefined`
      are turned into words, and words hold no digit. */
  function ParseInt(v: JsVal): (r: Option<int>)
    ensures v.Num? && Magnitude(v.n) < ExponentialFrom ==> r == Some(v.n)
    ensures v.Num? && Magnitude(v.n) >= ExponentialFrom ==>
      r.Some? && Magnitude(r.value) == LeadingDigit(Magnitude(v.n)) && (r.value < 0 <==> v.n < 0)
    ensures v.Str? ==> r == ParseIntText(v.s)
    ensures !v.Num? && !v.Str? ==> r == None
  {
    match v
    case Num(n) =>
      if n < 0 then Some(-(MagnitudeValue(Magnitude(n)) as int)) else Some(MagnitudeValue(Magnitude(n)))
    case Str(s) => ParseIntText(s)
    case _ => None
  }

  /** `parseInt(1e21)` is 1. */
  lemma ParseIntLargeNumberExample()
    ensures ParseInt(Num(ExponentialFrom)) == Some(1)
  {
    LeadingDigitOfPower(21);
    assert MagnitudeValue(Magnitude(ExponentialFrom)) == 1;
  }

  /** `parseInt(-1e21)` is -1. */
  lemma ParseIntLargeNegativeExample()
    ensures ParseInt(Num(-(ExponentialFrom as int))) == Some(-1)
  {
    LeadingDigitOfPower(21);
    assert MagnitudeValue(Magnitude(-(ExponentialFrom as int))) == 1;
  }

  /** A power of ten starts with the digit 1. */
  lemma {:induction false} LeadingDigitOfPower(j: nat)
    ensures LeadingDigit(Pow10(j)) == 1
    decreases j
  {
    if j > 0 {
      assert Pow10(j) / 10 == Pow10(j - 1);
      LeadingDigitOfPower(j - 1);
    }
  }

  lemma {:induction false} DecimalDigitsValue(n: nat)
    ensures DigitPrefix(Text.NatToDecimal(n), 10) == Text.NatToDecimal(n)
    ensures DigitsValue(Text.NatToDecimal(n), 10) == n
    decreases n
  {
    var ds := Text.NatToDecimal(n);
    if n >= 10 {
      DecimalDigitsValue(n / 10);
      assert ds[..|ds| - 1] == Text.NatToDecimal(n / 10);
    }
  }

  /** The decimal text of an integer reads back as it. Below 1e21 in
      magnitude that text is `String(i)`, so `parseInt(i) === i` there. */
  lemma ParseIntOfDecimal(i: int)
    ensures ParseIntText(Text.IntToDecimal(i)) == Some(i)
  {
    if i < 0 {
      ParseIntOfNegativeDigits(-i, []);
      assert "-" + Text.NatToDecimal(-i) + [] == Text.IntToDecimal(i);
    } else {
      ParseIntOfDigits(i, []);
      assert Text.NatToDecimal(i) + [] == Text.IntToDecimal(i);
    }
  }

  /** The digits of a natural number read back as it, and start with no sign. */
  lemma DecimalMagnitude(m: nat)
    ensures var digits := Text.NatToDecimal(m);
      ParseMagnitude(digits) == Some(m) && Text.IsDigit(digits[0]) && !Text.IsSpace(digits[0])
      && digits[0] != '-' && digits[0] != '+'
  {
    var digits := Text.NatToDecimal(m);
    DecimalDigitsValue(m);
    assert |digits| >= 2 ==> Text.IsDigit(digits[1]);
  }

  // ----- How `parseInt` reads text -----

  /** Skipping white space from inside a white-space prefix ends where skipping from its end does. */
  lemma {:induction false} SkipLeadingSpace(ws: string, t: string, i: nat)
    requires Text.AllSpace(ws) && i <= |ws|
    ensures Text.SkipSpace(ws + t, i) == Text.SkipSpace(ws + t, |ws|)
    decreases |ws| - i
  {
    if i < |ws| {
      assert (ws + t)[i] == ws[i];
      SkipLeadingSpace(ws, t, i + 1);
    }
  }

  /** Skipping white space in `t` after a prefix is skipping it in `t`, shifted. */
  lemma {:induction false} SkipShifted(ws: string, t: string, j: nat)
    requires j <= |t|
    ensures Text.SkipSpace(ws + t, |ws| + j) == |ws| + Text.SkipSpace(t, j)
    decreases |t| - j
  {
    if j < |t| {
      assert (ws + t)[|ws| + j] == t[j];
      if Text.IsSpace(t[j]) {
        SkipShifted(ws, t, j + 1);
      }
    }
  }

  /** Leading white space does not change what `parseInt` reads. */
  lemma ParseIntSkipsSpace(ws: string, t: string)
    requires Text.AllSpace(ws)
    ensures ParseIntText(ws + t) == ParseIntText(t)
  {
    SkipLeadingSpace(ws, t, 0);
    SkipShifted(ws, t, 0);
    var k := Text.SkipSpace(t, 0);
    assert Text.TrimStart(ws + t) == (ws + t)[|ws| + k..];
    assert (ws + t)[|ws| + k..] == t[k..];
  }

  /** The digit run of `ds + rest` is `ds` when `rest` does not go on with a digit. */
  lemma {:induction false} DigitPrefixStops(ds: string, rest: string)
    requires forall i | 0 <= i < |ds| :: Text.IsDigit(ds[i])
    requires rest == [] || !Text.IsDigit(rest[0])
    ensures DigitPrefix(ds + rest, 10) == ds
    decreases |ds|
  {
    if ds != [] {
      assert (ds + rest)[1..] == ds[1..] + rest;
      DigitPrefixStops(ds[1..], rest);
    } else {
      assert ds + rest == rest;
    }
  }

  /** The digit run of a number's decimal digits followed by text that is
      neither a digit nor an `x` is those digits; no `0x` prefix is seen. */
  lemma MagnitudeOfDigits(n: nat, rest: string)
    requires rest == [] || (!Text.IsDigit(rest[0]) && rest[0] != 'x' && rest[0] != 'X')
    ensures ParseMagnitude(Text.NatToDecimal(n) + rest) == Some(n)
  {
    var ds := Text.NatToDecimal(n);
    var u := ds + rest;
    DecimalDigitsValue(n);
    if |ds| >= 2 {
      assert u[1] == ds[1];
    } else if |u| >= 2 {
      assert u[1] == rest[0];
    }
    assert !(|u| >= 2 && u[0] == '0' && (u[1] == 'x' || u[1] == 'X'));
    DigitPrefixStops(ds, rest);
    assert DigitPrefix(u, 10) == ds && ds != [];
  }

  /** A number's decimal digits followed by text that is neither a digit nor an
      `x` read as that number: `parseInt("12abc")` is 12. */
  lemma ParseIntOfDigits(n: nat, rest: string)
    requires rest == [] || (!Text.IsDigit(rest[0]) && rest[0] != 'x' && rest[0] != 'X')
    ensures ParseIntText(Text.NatToDecimal(n) + rest) == Some(n)
  {
    var u := Text.NatToDecimal(n) + rest;
    DecimalMagnitude(n);
    MagnitudeOfDigits(n, rest);
    assert u[0] == Text.NatToDecimal(n)[0];
    Text.TrimStartKeeps(u);
  }

  /** A minus sign before a magnitude negates it. */
  lemma NegatedMagnitude(u: string, m: nat)
    requires ParseMagnitude(u) == Some(m)
    ensures ParseIntText("-" + u) == Some(-(m as int))
  {
    Text.TrimStartKeeps("-" + u);
    assert ("-" + u)[1..] == u;
  }

  /** A minus sign before the digits negates the number: `parseInt("-12abc")` is -12. */
  lemma ParseIntOfNegativeDigits(n: nat, rest: string)
    requires rest == [] || (!Text.IsDigit(rest[0]) && rest[0] != 'x' && rest[0] != 'X')
    ensures ParseIntText("-" + Text.NatToDecimal(n) + rest) == Some(-(n as int))
  {
    var u := Text.NatToDecimal(n) + rest;
    MagnitudeOfDigits(n, rest);
    NegatedMagnitude(u, n);
    assert "-" + Text.NatToDecimal(n) + rest == "-" + u;
  }

  /** Text that starts with neither white space, a sign nor a digit is NaN. */
  lemma ParseIntOfNoNumber(t: string)
    requires t == [] || (!Text.IsSpace(t[0]) && !Text.IsDigit(t[0]) && t[0] != '-' && t[0] != '+')
    ensures ParseIntText(t) == None
  {
    if t != [] {
      Text.TrimStartKeeps(t);
    }
  }

  /** A sign not followed by a digit is NaN: `parseInt("-")` and `parseInt("+-5")`. */
  lemma ParseIntOfBareSign(sign: char, t: string)
    requires sign == '-' || sign == '+'
    requires t == [] || !Text.IsDigit(t[0])
    ensures ParseIntText([sign] + t) == None
  {
    Text.TrimStartKeeps([sign] + t);
    assert ([sign] + t)[1..] == t;
  }

  /** Leading blanks are skipped and reading stops at the first non-digit. */
  lemma ParseIntSpaceDigitsExample()
    ensures ParseIntText("  12abc") == Some(12)
  {
    DigitsTwelve();
    TwoBlanks();
    ParseIntSkipsSpace("  ", "12abc");
  }

  lemma DigitsTwelve()
    ensures ParseIntText("12abc") == Some(12)
  {
    assert Text.NatToDecimal(1) == "1";
    assert Text.NatToDecimal(12) + "abc" == "12abc";
    ParseIntOfDigits(12, "abc");
  }

  lemma TwoBlanks()
    ensures Text.AllSpace("  ") && "  " + "12abc" == "  12abc"
  {
  }

  /** A sign may precede a hexadecimal number. */
  lemma ParseIntHexExample()
    ensures ParseIntText("-0x1A") == Some(-26)
  {
    Text.TrimStartKeeps("-0x1A");
    assert "-0x1A"[1..] == "0x1A";
    assert "0x1A"[2..] == "1A";
    assert DigitPrefix("1A", 16) == "1A";
    assert DigitsValue("1A", 16) == 26;
  }

  /** `0x` with no hexadecimal digit after it is NaN. */
  lemma ParseIntBareHexExample()
    ensures ParseIntText("0x") == None
  {
    Text.TrimStartKeeps("0x");
    assert "0x"[2..] == [];
  }

  /** Two signs are NaN. */
  lemma ParseIntTwoSignsExample()
    ensures ParseIntText("+-5") == None
  {
    assert "+-5" == ['+'] + "-5";
    ParseIntOfBareSign('+', "-5");
  }


  /** What `!v || v.trim() === ''` followed by `v.trim()` yields. */
  datatype TextField = Blank | Given(trimmed: string) | NotAString

  /** A falsy value or a string that is all white space is blank; any other
      non-string has no `trim` method, so calling it throws a TypeError. */
  function TrimmedText(v: JsVal): (r: TextField)
    ensures r.Blank? <==> !Truthy(v) || (v.Str? && Text.AllSpace(v.s))
    ensures r.Given? ==> v.Str? && r.trimmed == Text.Trim(v.s) && r.trimmed != []
    ensures r.NotAString? <==> Truthy(v) && !v.Str?
  {
    Text.TrimBlank(if v.Str? then v.s else "");
    if !Truthy(v) then Blank
    else if v.Str? then (if Text.Trim(v.s) == [] then Blank else Given(Text.Trim(v.s)))
    else NotAString
  }

  /** The message V8 gives the TypeError of calling `.trim()` on a non-string named `name`. */
  function TrimTypeError(name: string): string
  {
    name + ".trim" + " is not" + " a function"
  }
}
