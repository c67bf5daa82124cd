/** JavaScript's parseInt, on the integers it can return, and the colour
    decode parseInt("0x" + color, 16) that the renderer applies to a
    record's colour field. */
module Numbers {
  import opened Strings

  /** What a parseInt call yields: an integer, or NaN when no digit is read. */
  datatype Num = Int(value: int) | NaN

  /** parseInt's radix argument as the viewer uses it: omitted (decimal,
      unless the digits are introduced by 0x or 0X) or 16. */
  datatype Radix = Default | Sixteen

  predicate IsDecimalDigit(c: char) {
    '0' <= c <= '9'
  }

  predicate IsHexDigit(c: char) {
    IsDecimalDigit(c) || 'a' <= c <= 'f' || 'A' <= c <= 'F'
  }

  /** A digit of the given base (10 or 16). */
  predicate IsDigit(c: char, base: nat) {
    if base == 16 then IsHexDigit(c) else IsDecimalDigit(c)
  }

  function DigitValue(c: char): (d: nat)
    requires IsHexDigit(c)
    ensures d < 16
    ensures IsDecimalDigit(c) ==> d < 10
  {
    if IsDecimalDigit(c) then c as int - '0' as int
    else if 'a' <= c <= 'f' then c as int - 'a' as int + 10
    else c as int - 'A' as int + 10
  }

  /** The length of the longest prefix of s made of digits of the base. */
  function DigitRun(s: string, base: nat): (n: nat)
    ensures n <= |s|
    ensures forall i :: 0 <= i < n ==> IsDigit(s[i], base)
    ensures n == |s| || !IsDigit(s[n], base)
  {
    if s != [] && IsDigit(s[0], base) then 1 + DigitRun(s[1..], base) else 0
  }

  predicate AllDigits(ds: string, base: nat) {
    forall i :: 0 <= i < |ds| ==> IsDigit(ds[i], base)
  }

  /** The positional value of a digit string, most significant digit first. */
  function DigitsValue(ds: string, base: nat): nat
    requires base == 10 || base == 16
    requires AllDigits(ds, base)
  {
    if ds == [] then 0
    else DigitsValue(ds[..|ds| - 1], base) * base + DigitValue(ds[|ds| - 1])
  }

  /** The text after an optional leading sign. */
  function Unsigned(t: string): string {
    if |t| > 0 && (t[0] == '-' || t[0] == '+') then t[1..] else t
  }

  /** The text starts with the prefix 0x or 0X. */
  predicate HasHexPrefix(u: string) {
    |u| >= 2 && u[0] == '0' && (u[1] == 'x' || u[1] == 'X')
  }

  /** The value of the longest run of digits at the start of body, or NaN
      when body does not start with a digit of the base. */
  function LeadingValue(body: string, base: nat): (r: Num)
    requires base == 10 || base == 16
    ensures r.Int? ==> r.value >= 0
  {
    var n := DigitRun(body, base);
    if n == 0 then NaN else Int(DigitsValue(body[..n], base))
  }

  function Negate(r: Num): Num {
    if r.NaN? then NaN else Int(-r.value)
  }

  /** parseInt(s, radix) as ECMAScript defines it: skip leading whitespace,
      take an optional sign, drop a 0x or 0X prefix (which also selects
      base 16), then read the longest run of digits; no digits is NaN.
      So the result is a number exactly when, past the leading whitespace
      and the optional sign, a digit of the radix follows, and after a 0x
      prefix a hex digit as well; a negative number only after '-'. */
  function ParseIntRadix(s: string, radix: Radix): (r: Num)
    ensures r.Int? <==> var u := Unsigned(TrimStart(s));
      u != [] && IsDigit(u[0], if radix == Sixteen then 16 else 10)
      && (!HasHexPrefix(u) || (|u| > 2 && IsHexDigit(u[2])))
    ensures r.Int? && r.value < 0 ==> TrimStart(s)[0] == '-'
  {
    var t := TrimStart(s);
    var u := Unsigned(t);
    var magnitude :=
      if HasHexPrefix(u) then LeadingValue(u[2..], 16)
      else LeadingValue(u, if radix == Sixteen then 16 else 10);
    if |t| > 0 && t[0] == '-' then Negate(magnitude) else magnitude
  }

  /** parseInt(s) with no radix, as the parser applies it to numeric fields. */
  function ParseInt(s: string): (r: Num)
    ensures r.Int? <==> var u := Unsigned(TrimStart(s));
      u != [] && IsDecimalDigit(u[0]) && (!HasHexPrefix(u) || (|u| > 2 && IsHexDigit(u[2])))
    ensures r.Int? && r.value < 0 ==> TrimStart(s)[0] == '-'
  {
    ParseIntRadix(s, Default)
  }

  /** The decimal digit for d. */
  function DecimalDigit(d: nat): (c: char)
    requires d < 10
    ensures IsDecimalDigit(c) && DigitValue(c) == d
  {
    ('0' as int + d) as char
  }

  /** The decimal numeral of n, without leading zeros. */
  function ShowNat(n: nat): (s: string)
    ensures |s| >= 1 && AllDigits(s, 10)
    ensures s[0] == '0' ==> n == 0
  {
    if n < 10 then [DecimalDigit(n)] else ShowNat(n / 10) + [DecimalDigit(n % 10)]
  }

  /** The decimal numeral of n, with a leading '-' when n is negative. */
  function ShowInt(n: int): string {
    if n < 0 then "-" + ShowNat(-n) else ShowNat(n)
  }

  lemma {:induction false} DigitsValueShowNat(n: nat)
    ensures DigitsValue(ShowNat(n), 10) == n
  {
    if n >= 10 {
      DigitsValueShowNat(n / 10);
      var s := ShowNat(n);
      assert s[..|s| - 1] == ShowNat(n / 10);
    }
  }

  /** A digit run followed by a non-digit is read up to that non-digit. */
  lemma {:induction false} DigitRunOf(ds: string, rest: string, base: nat)
    requires AllDigits(ds, base)
    requires rest == [] || !IsDigit(rest[0], base)
    ensures DigitRun(ds + rest, base) == |ds|
  {
    if ds != [] {
      assert (ds + rest)[1..] == ds[1..] + rest;
      DigitRunOf(ds[1..], rest, base);
    }
  }

  /** parseInt reads back the numeral of any integer, and ignores whatever
      follows it, unless that starts with a digit or turns a lone "0" into
      the hexadecimal prefix "0x". */
  lemma ParseIntShowInt(n: int, rest: string)
    requires rest == [] || !IsDecimalDigit(rest[0])
    requires n == 0 && rest != [] ==> rest[0] != 'x' && rest[0] != 'X'
    ensures ParseInt(ShowInt(n) + rest) == Int(n)
  {
    if n < 0 {
      ReadNumeral(-n, rest);
      NegativeNumeral(n, rest);
    } else {
      ReadNumeral(n, rest);
      SignedReads(ShowNat(n) + rest, n);
      assert ShowInt(n) + rest == ShowNat(n) + rest;
    }
  }

  lemma NegativeNumeral(n: int, rest: string)
    requires n < 0
    requires var u := ShowNat(-n) + rest;
      u != [] && IsDecimalDigit(u[0]) && !HasHexPrefix(u) && LeadingValue(u, 10) == Int(-n)
    ensures ParseInt(ShowInt(n) + rest) == Int(n)
  {
    var u := ShowNat(-n) + rest;
    assert ShowInt(n) + rest == "-" + u;
    MinusReads(ShowInt(n) + rest, u, -n);
  }

  lemma MinusReads(s: string, u: string, m: nat)
    requires s == "-" + u
    requires u != [] && IsDecimalDigit(u[0]) && !HasHexPrefix(u) && LeadingValue(u, 10) == Int(m)
    ensures ParseInt(s) == Int(-(m as int))
  {
    SignedReads(u, m);
  }

  /** Digits worth m, with or without a '-' in front, read as m or -m. */
  lemma SignedReads(u: string, m: nat)
    requires u != [] && IsDecimalDigit(u[0]) && !HasHexPrefix(u) && LeadingValue(u, 10) == Int(m)
    ensures ParseInt(u) == Int(m) && ParseInt("-" + u) == Int(-(m as int))
  {
    DecimalParse(u);
    StartsUnsigned(u);
  }

  /** The numeral of m followed by rest starts with a digit, has no hex
      prefix, and its leading digits are worth m. */
  lemma ReadNumeral(m: nat, rest: string)
    requires rest == [] || !IsDecimalDigit(rest[0])
    requires m == 0 && rest != [] ==> rest[0] != 'x' && rest[0] != 'X'
    ensures var u := ShowNat(m) + rest;
      u != [] && IsDecimalDigit(u[0]) && !HasHexPrefix(u) && LeadingValue(u, 10) == Int(m)
  {
    var d := ShowNat(m);
    var u := d + rest;
    assert u[0] == d[0];
    assert !HasHexPrefix(u) by {
      if |d| == 1 && rest != [] {
        assert u[1] == rest[0];
      } else if |d| >= 2 {
        assert u[1] == d[1];
      }
    }
    DigitRunOf(d, rest, 10);
    assert u[..|d|] == d;
    DigitsValueShowNat(m);
  }

  /** A text that starts with a decimal digit and not with 0x reads as the
      value of its leading digits. */
  lemma DecimalParse(u: string)
    requires u != [] && IsDecimalDigit(u[0]) && !HasHexPrefix(u)
    ensures ParseInt(u) == LeadingValue(u, 10)
  {
    TrimStartUnchanged(u);
  }

  lemma TrimStartUnchanged(s: string)
    requires s != [] && !IsWhitespace(s[0])
    ensures TrimStart(s) == s
  {
  }

  /** Behind a '-', the rest of the text is read as it would be alone,
      provided it does not start with whitespace or a sign of its own. */
  lemma StartsUnsigned(s: string)
    requires s == [] || (!IsWhitespace(s[0]) && s[0] != '-' && s[0] != '+')
    ensures ParseInt("-" + s) == Negate(ParseInt(s))
  {
    var t := "-" + s;
    TrimStartUnchanged(t);
    assert Unsigned(t) == s;
    if s != [] {
      TrimStartUnchanged(s);
    }
  }

  /** A '+' in front changes nothing, provided the rest does not start
      with whitespace or a sign of its own. */
  lemma StartsPlus(s: string)
    requires s == [] || (!IsWhitespace(s[0]) && s[0] != '-' && s[0] != '+')
    ensures ParseInt("+" + s) == ParseInt(s)
  {
    var t := "+" + s;
    TrimStartUnchanged(t);
    assert Unsigned(t) == s;
    if s != [] {
      TrimStartUnchanged(s);
    }
  }

  /** Even without a radix, a 0x or 0X prefix selects base 16: the hex
      digits after it are read as a hexadecimal number. */
  lemma HexPrefixReads(ds: string)
    requires ds != [] && IsHexDigit(ds[0])
    ensures ParseInt("0x" + ds) == LeadingValue(ds, 16)
    ensures ParseInt("0X" + ds) == LeadingValue(ds, 16)
    ensures LeadingValue(ds, 16).Int?
  {
    var t, v := "0x" + ds, "0X" + ds;
    TrimStartUnchanged(t);
    TrimStartUnchanged(v);
    assert t[2..] == ds;
    assert v[2..] == ds;
  }

  /** A field with an explicit '+' reads as its digits. */
  lemma PlusExample()
    ensures ParseInt("+5") == Int(5)
  {
    StartsPlus("5");
    DecimalParse("5");
    assert DigitRun("5", 10) == 1;
    assert "5"[..1] == "5";
  }

  /** Leading zeros do not change the value of a field. */
  lemma ZerosExample()
    ensures ParseInt("007") == Int(7)
  {
    DecimalParse("007");
    assert DigitRun("007", 10) == 3;
    assert "007"[..3] == "007";
    assert "007"[..2] == "00";
    assert "00"[..1] == "0";
    assert "0"[..0] == "";
    assert DigitsValue("0", 10) == 0;
    assert DigitsValue("00", 10) == 0;
    assert DigitsValue("007", 10) == 7;
    assert LeadingValue("007", 10) == Int(DigitsValue("007", 10));
  }

  /** Without a radix, a 0x prefix is read as hexadecimal. */
  lemma HexExample()
    ensures ParseInt("0x1F") == Int(31)
  {
    HexPrefixReads("1F");
    assert DigitRun("1F", 16) == 2;
    assert "1F"[..2] == "1F";
    assert "1F"[..1] == "1";
    assert "1"[..0] == "";
    assert DigitsValue("1", 16) == 1;
    assert DigitValue('F') == 15;
    assert LeadingValue("1F", 16) == Int(DigitsValue("1F", 16));
  }

  /** Fields that read as NaN although they start with a digit or a sign:
      a 0x prefix with no hex digit after it, a sign followed by a blank,
      and a sign followed by another sign. */
  lemma NaNExamples()
    ensures ParseInt("0x") == NaN
    ensures ParseInt("0xZZ") == NaN
    ensures ParseInt("- 5") == NaN
    ensures ParseInt("+-5") == NaN
  {
    TrimStartUnchanged("0x");
    TrimStartUnchanged("0xZZ");
    TrimStartUnchanged("- 5");
    TrimStartUnchanged("+-5");
    assert Unsigned("- 5") == " 5";
    assert Unsigned("+-5") == "-5";
  }

  /** A field whose first character is neither whitespace, a sign nor a
      digit, or that is empty, reads as NaN. */
  lemma ParseIntNoDigit(s: string)
    requires s == [] || (!IsWhitespace(s[0]) && !IsDecimalDigit(s[0]) && s[0] != '-' && s[0] != '+')
    ensures ParseInt(s) == NaN
  {
    if s != [] {
      TrimStartUnchanged(s);
    }
  }

  /** Exactly six hexadecimal digits, no prefix: the colour field format. */
  predicate IsHexColor(color: string) {
    |color| == 6 && AllDigits(color, 16)
  }

  function Pow16(k: nat): (p: nat)
    ensures p >= 1
  {
    if k == 0 then 1 else 16 * Pow16(k - 1)
  }

  lemma {:induction false} DigitsValueBound(ds: string)
    requires AllDigits(ds, 16)
    ensures DigitsValue(ds, 16) < Pow16(|ds|)
  {
    if ds != [] {
      DigitsValueBound(ds[..|ds| - 1]);
    }
  }

  /** The colour decode parseInt("0x" + color, 16) at index.js lines 102
      and 139: NaN exactly when the colour does not start with a hex digit,
      and a value below 0x1000000 for a well-formed six-digit colour. */
  function ColorToInt(color: string): (r: Num)
    ensures r.NaN? <==> color == [] || !IsHexDigit(color[0])
    ensures IsHexColor(color) ==> r == Int(DigitsValue(color, 16)) && r.value < 0x100_0000
  {
    var s := "0x" + color;
    assert TrimStart(s) == s;
    assert s[2..] == color;
    assert IsHexColor(color) ==> color[..6] == color && DigitsValue(color, 16) < 0x100_0000 by {
      if IsHexColor(color) {
        DigitsValueBound(color);
        assert Pow16(6) == 0x100_0000;
      }
    }
    ParseIntRadix(s, Sixteen)
  }

  /** The hexadecimal digit for d, upper case. */
  function HexDigit(d: nat): (c: char)
    requires d < 16
    ensures IsHexDigit(c) && DigitValue(c) == d
  {
    if d < 10 then DecimalDigit(d) else ('A' as int + d - 10) as char
  }

  /** The last k hexadecimal digits of n, most significant first. */
  function HexDigits(n: nat, k: nat): (s: string)
    ensures |s| == k && AllDigits(s, 16)
  {
    if k == 0 then [] else HexDigits(n / 16, k - 1) + [HexDigit(n % 16)]
  }

  lemma {:induction false} DigitsValueHexDigits(n: nat, k: nat)
    requires n < Pow16(k)
    ensures DigitsValue(HexDigits(n, k), 16) == n
  {
    if k > 0 {
      DigitsValueHexDigits(n / 16, k - 1);
      var s := HexDigits(n, k);
      assert s[..k - 1] == HexDigits(n / 16, k - 1);
    }
  }

  /** A colour value as the six hex digits a colour field holds. */
  function FormatColor(v: nat): (color: string)
    requires v < 0x100_0000
    ensures IsHexColor(color)
  {
    HexDigits(v, 6)
  }

  /** Decoding a formatted colour gives its value back. */
  lemma ColorRoundTrip(v: nat)
    requires v < 0x100_0000
    ensures ColorToInt(FormatColor(v)) == Int(v)
  {
    assert Pow16(6) == 0x100_0000;
    DigitsValueHexDigits(v, 6);
  }
}
