/** Integers as stored text: snprintf's "%d" for a C `int`, and strtol(s, NULL, 0)
    followed by the cast to `int` for reading one back. */
module IntText {
  import opened Table

  const IntMin := -0x8000_0000
  const IntMax := 0x7FFF_FFFF
  /** The range of a 64-bit C `long`, where strtol saturates. */
  const LongMin := -0x8000_0000_0000_0000
  const LongMax := 0x7FFF_FFFF_FFFF_FFFF

  /** A C `int`. */
  type Int32 = x: int | IntMin <= x <= IntMax

  function Pow10(k: nat): (p: nat)
    ensures p >= 1
  {
    if k == 0 then 1 else 10 * Pow10(k - 1)
  }

  /** The value of a digit character in bases up to 36 ('0'-'9', 'a'-'z', 'A'-'Z');
      36 for every other character. */
  function DigitValue(c: char): (d: nat)
    ensures d <= 36
  {
    if '0' <= c <= '9' then c as int - '0' as int
    else if 'a' <= c <= 'z' then c as int - 'a' as int + 10
    else if 'A' <= c <= 'Z' then c as int - 'A' as int + 10
    else 36
  }

  function DigitChar(d: nat): (c: char)
    requires d < 10
    ensures DigitValue(c) == d && c != '\0'
  {
    ('0' as int + d) as char
  }

  /** The decimal digits of n, most significant first, without leading zeros. */
  function Decimal(n: nat): (s: seq<char>)
    ensures |s| >= 1
    ensures forall i :: 0 <= i < |s| ==> DigitValue(s[i]) < 10 && s[i] != '\0'
    ensures n > 0 ==> s[0] != '0'
  {
    if n < 10 then [DigitChar(n)] else Decimal(n / 10) + [DigitChar(n % 10)]
  }

  lemma {:induction false} DecimalLength(n: nat, k: nat)
    requires 1 <= k && n < Pow10(k)
    ensures |Decimal(n)| <= k
  {
    if n >= 10 {
      assert n / 10 < Pow10(k - 1);
      DecimalLength(n / 10, k - 1);
    }
  }

  /** snprintf(buf, MaxTextSize, "%d", v): an optional minus sign and the decimal digits. */
  function FormatInt(v: Int32): (s: CString)
    ensures 1 <= |s| <= 11
  {
    var m: nat := if v < 0 then -(v as int) else v as int;
    DecimalLength(m, 10);
    if v < 0 then "-" + Decimal(m) else Decimal(m)
  }

  /** The value of a digit string in `base`, most significant digit first. */
  function Value(digits: seq<char>, base: nat): nat
  {
    if digits == [] then 0
    else Value(digits[..|digits| - 1], base) * base + DigitValue(digits[|digits| - 1])
  }

  /** Length of the longest prefix of digits valid in `base`. */
  function DigitRun(s: seq<char>, base: nat): (k: nat)
    ensures k <= |s|
    ensures forall i :: 0 <= i < k ==> DigitValue(s[i]) < base
    ensures k < |s| ==> DigitValue(s[k]) >= base
  {
    if s == [] || DigitValue(s[0]) >= base then 0 else 1 + DigitRun(s[1..], base)
  }

  /** The value of the leading digits of s in `base` (0 when there are none). */
  function LeadingValue(s: seq<char>, base: nat): nat
  {
    Value(s[..DigitRun(s, base)], base)
  }

  /** isspace in the C locale. */
  predicate IsSpace(c: char)
  {
    c == ' ' || c == '\t' || c == '\n' || c == 11 as char || c == 12 as char || c == '\r'
  }

  function SkipSpace(s: seq<char>): (t: seq<char>)
    ensures |t| <= |s| && t == s[|s| - |t|..]
    ensures forall j {:trigger IsSpace(s[j])} :: 0 <= j < |s| - |t| ==> IsSpace(s[j])
    ensures t != [] ==> !IsSpace(t[0])
  {
    if s != [] && IsSpace(s[0]) then SkipSpace(s[1..]) else s
  }

  /** strtol with base 0 on an unsigned remainder: "0x"/"0X" followed by a hex digit
      selects base 16, a leading "0" base 8, anything else base 10. */
  function UnsignedBase0(u: seq<char>): nat
  {
    if |u| >= 3 && u[0] == '0' && (u[1] == 'x' || u[1] == 'X') && DigitValue(u[2]) < 16 then
      LeadingValue(u[2..], 16)
    else if u != [] && u[0] == '0' then LeadingValue(u[1..], 8)
    else LeadingValue(u, 10)
  }

  /** The mathematical value strtol(s, NULL, 0) reads: leading white space, an optional
      sign, then the digits of the chosen base. */
  function StrtolValue(s: seq<char>): int
  {
    var t := SkipSpace(s);
    if t != [] && t[0] == '-' then -(UnsignedBase0(t[1..]) as int)
    else if t != [] && t[0] == '+' then UnsignedBase0(t[1..])
    else UnsignedBase0(t)
  }

  /** strtol saturates at the bounds of `long`. */
  function ClampLong(x: int): (r: int)
    ensures LongMin <= r <= LongMax
    ensures LongMin <= x <= LongMax ==> r == x
    ensures x > LongMax ==> r == LongMax
    ensures x < LongMin ==> r == LongMin
  {
    if x < LongMin then LongMin else if x > LongMax then LongMax else x
  }

  /** The (int) cast of a `long`: two's-complement wrap-around modulo 2^32. */
  function WrapInt(x: int): (r: Int32)
    ensures (r - x) % 0x1_0000_0000 == 0
    ensures IntMin <= x <= IntMax ==> r == x
  {
    (x - IntMin) % 0x1_0000_0000 + IntMin
  }

  /** (int)strtol(s, NULL, 0). */
  function ParseInt(s: seq<char>): Int32
  {
    WrapInt(ClampLong(StrtolValue(s)))
  }

  lemma {:induction false} ValueOfDecimal(n: nat)
    ensures Value(Decimal(n), 10) == n
  {
    var s := Decimal(n);
    if n >= 10 {
      ValueOfDecimal(n / 10);
      assert s[..|s| - 1] == Decimal(n / 10);
    }
  }

  lemma LeadingValueOfDecimal(n: nat)
    ensures LeadingValue(Decimal(n), 10) == n
  {
    var s := Decimal(n);
    assert DigitRun(s, 10) == |s|;
    assert s[..|s|] == s;
    ValueOfDecimal(n);
  }

  /** Reading back what "%d" wrote gives the same integer. */
  lemma ParseFormatted(v: Int32)
    ensures ParseInt(FormatInt(v)) == v
  {
    StrtolFormatted(v);
  }

  lemma StrtolFormatted(v: Int32)
    ensures StrtolValue(FormatInt(v)) == v
  {
    var m: nat := if v < 0 then -(v as int) else v as int;
    var s := FormatInt(v);
    var d := Decimal(m);
    if v < 0 {
      assert s == "-" + d;
      assert '1' <= d[0] <= '9';
      StrtolNegative(d);
      LeadingValueOfDecimal(m);
      assert StrtolValue(s) == -(m as int);
    } else if v == 0 {
      assert s == "0";
      SkipSpaceNoSpace(s);
      assert StrtolValue(s) == LeadingValue([], 8);
    } else {
      assert s == d;
      assert '1' <= d[0] <= '9';
      StrtolDecimal(d);
      LeadingValueOfDecimal(m);
    }
  }

  lemma StrtolNegative(d: seq<char>)
    requires d != [] && '1' <= d[0] <= '9'
    ensures StrtolValue("-" + d) == -(LeadingValue(d, 10) as int)
  {
    var s := "-" + d;
    SkipSpaceNoSpace(s);
    assert s[1..] == d;
  }

  lemma StrtolDecimal(d: seq<char>)
    requires d != [] && '1' <= d[0] <= '9'
    ensures StrtolValue(d) == LeadingValue(d, 10)
  {
    SkipSpaceNoSpace(d);
  }

  /** Text that does not start with white space is left as it is. */
  lemma SkipSpaceNoSpace(s: seq<char>)
    requires s != [] && !IsSpace(s[0])
    ensures SkipSpace(s) == s
  {
  }

  /** Text that, after white space and a sign, does not begin with a decimal digit
      reads as 0. */
  lemma NonNumericIsZero(s: seq<char>)
    requires var t := SkipSpace(s);
             var u := if t != [] && (t[0] == '-' || t[0] == '+') then t[1..] else t;
             u == [] || DigitValue(u[0]) >= 10
    ensures ParseInt(s) == 0
  {
    var t := SkipSpace(s);
    var u := if t != [] && (t[0] == '-' || t[0] == '+') then t[1..] else t;
    UnsignedNonNumeric(u);
  }

  /** Without a leading digit, no base prefix applies and no digit is read. */
  lemma UnsignedNonNumeric(u: seq<char>)
    requires u == [] || DigitValue(u[0]) >= 10
    ensures UnsignedBase0(u) == 0
  {
    assert DigitRun(u, 10) == 0;
    assert u[..0] == [];
  }
}
