/**
  The pieces of Rust's standard library that the Bluetooth feed leans on when
  it reads rfkill's sysfs text: `str::trim_end`, `str::parse::<u8>`, and the
  decimal form in which the kernel writes a state number.
*/
module RustText {
  import opened Wrappers

  /** Rust's `u8`. */
  type uint8 = x: int | 0 <= x < 0x100

  /** Rust's `char::is_whitespace`: the Unicode `White_Space` property. */
  predicate IsWhitespace(c: char) {
    || '\U{0009}' <= c <= '\U{000D}'
    || c == '\U{0020}'
    || c == '\U{0085}'
    || c == '\U{00A0}'
    || c == '\U{1680}'
    || '\U{2000}' <= c <= '\U{200A}'
    || c == '\U{2028}'
    || c == '\U{2029}'
    || c == '\U{202F}'
    || c == '\U{205F}'
    || c == '\U{3000}'
  }

  /** `str::trim_end`: the longest prefix of `s` that does not end in whitespace. */
  function TrimEnd(s: string): (t: string)
    ensures t <= s
    ensures t == [] || !IsWhitespace(t[|t| - 1])
    ensures forall i :: |t| <= i < |s| ==> IsWhitespace(s[i])
  {
    if s != [] && IsWhitespace(s[|s| - 1]) then TrimEnd(s[..|s| - 1]) else s
  }

  /** Trailing whitespace added to a text that does not end in whitespace is exactly what `TrimEnd` removes. */
  lemma {:induction false} TrimEndOfPadded(t: string, pad: string)
    requires t == [] || !IsWhitespace(t[|t| - 1])
    requires forall i :: 0 <= i < |pad| ==> IsWhitespace(pad[i])
    ensures TrimEnd(t + pad) == t
  {
    if pad == [] {
      assert t + pad == t;
    } else {
      var shorter := pad[..|pad| - 1];
      assert (t + pad)[..|t + pad| - 1] == t + shorter;
      TrimEndOfPadded(t, shorter);
    }
  }

  predicate IsDigit(c: char) {
    '0' <= c <= '9'
  }

  predicate AllDigits(s: string) {
    forall i :: 0 <= i < |s| ==> IsDigit(s[i])
  }

  function DigitChar(d: nat): char
    requires d < 10
  {
    (d + '0' as int) as char
  }

  /** The number that a string of decimal digits denotes (leading zeros allowed). */
  function DecimalValue(ds: string): nat
    requires AllDigits(ds)
  {
    if ds == [] then 0
    else DecimalValue(ds[..|ds| - 1]) * 10 + (ds[|ds| - 1] as int - '0' as int)
  }

  /** The canonical decimal form of `n`, as the kernel writes a state number. */
  function ShowDecimal(n: nat): (s: string)
    ensures s != [] && AllDigits(s)
    ensures DecimalValue(s) == n
    ensures |s| > 1 ==> s[0] != '0'
  {
    if n < 10 then [DigitChar(n)]
    else
      var front := ShowDecimal(n / 10);
      var s := front + [DigitChar(n % 10)];
      assert s[..|s| - 1] == front;
      s
  }

  /**
    `str::parse::<u8>`: an optional leading `+`, then at least one decimal digit
    and nothing else, denoting a value below 256. Leading zeros are accepted;
    a `-` sign, surrounding whitespace, an empty text and overflow are errors.
  */
  function ParseU8(s: string): (r: Option<uint8>)
    ensures r.Some? ==> s != [] && (IsDigit(s[0]) || s[0] == '+')
    ensures r.Some? ==> forall i :: 0 < i < |s| ==> IsDigit(s[i])
  {
    var digits := if s != [] && s[0] == '+' then s[1..] else s;
    if digits != [] && AllDigits(digits) && DecimalValue(digits) < 0x100
    then Some(DecimalValue(digits))
    else None
  }

  /** Parsing the decimal form of a byte, with or without a `+`, gives the byte back. */
  lemma ParseShowRoundTrip(b: uint8)
    ensures ParseU8(ShowDecimal(b)) == Some(b)
    ensures ParseU8("+" + ShowDecimal(b)) == Some(b)
  {
  }

  /** `z` zero digits. */
  function Zeros(z: nat): (zs: string)
    ensures |zs| == z && forall i :: 0 <= i < z ==> zs[i] == '0'
  {
    seq(z, _ => '0')
  }

  lemma {:induction false} ZerosAreZero(z: nat)
    ensures AllDigits(Zeros(z)) && DecimalValue(Zeros(z)) == 0
  {
    if z > 0 {
      assert Zeros(z)[..z - 1] == Zeros(z - 1);
      ZerosAreZero(z - 1);
    }
  }

  /** Leading zeros do not change the value of a digit string. */
  lemma {:induction false} LeadingZerosValue(z: nat, t: string)
    requires AllDigits(t)
    ensures AllDigits(Zeros(z) + t) && DecimalValue(Zeros(z) + t) == DecimalValue(t)
  {
    var u := Zeros(z) + t;
    if t == [] {
      assert u == Zeros(z);
      ZerosAreZero(z);
    } else {
      var front := t[..|t| - 1];
      assert u[..|u| - 1] == Zeros(z) + front;
      LeadingZerosValue(z, front);
    }
  }

  /** A digit string that starts with a non-zero digit denotes at least 1. */
  lemma {:induction false} LeadingDigitPositive(d: string)
    requires d != [] && AllDigits(d) && d[0] != '0'
    ensures DecimalValue(d) >= 1
  {
    if |d| > 1 {
      LeadingDigitPositive(d[..|d| - 1]);
    }
  }

  /** A digit string without a leading zero is the decimal form of its value. */
  lemma {:induction false} CanonicalIsShown(d: string)
    requires d != [] && AllDigits(d)
    requires |d| > 1 ==> d[0] != '0'
    ensures d == ShowDecimal(DecimalValue(d))
  {
    var c := d[|d| - 1] as int - '0' as int;
    if |d| > 1 {
      var front := d[..|d| - 1];
      CanonicalIsShown(front);
      LeadingDigitPositive(front);
      var v := DecimalValue(d);
      assert v == DecimalValue(front) * 10 + c;
      assert v / 10 == DecimalValue(front) && v % 10 == c;
      assert DigitChar(c) == d[|d| - 1];
      assert d == front + [d[|d| - 1]];
    }
  }

  /** Every non-empty digit string is some zeros followed by the decimal form of its value. */
  lemma {:induction false} DigitsAreZerosThenShown(d: string)
    requires d != [] && AllDigits(d)
    ensures exists z: nat :: d == Zeros(z) + ShowDecimal(DecimalValue(d))
  {
    if |d| > 1 && d[0] == '0' {
      var rest := d[1..];
      assert d == Zeros(1) + rest;
      LeadingZerosValue(1, rest);
      DigitsAreZerosThenShown(rest);
      var z: nat :| rest == Zeros(z) + ShowDecimal(DecimalValue(rest));
      assert Zeros(1) + Zeros(z) == Zeros(z + 1);
      assert d == Zeros(z + 1) + ShowDecimal(DecimalValue(d));
    } else {
      CanonicalIsShown(d);
      assert d == Zeros(0) + ShowDecimal(DecimalValue(d));
    }
  }

  /** Every text `ParseU8` accepts is zeros and a decimal form, after an optional `+`. */
  lemma ParseU8Shape(s: string, b: uint8)
    requires ParseU8(s) == Some(b)
    ensures exists z: nat :: s == Zeros(z) + ShowDecimal(b) || s == "+" + Zeros(z) + ShowDecimal(b)
  {
    var digits := if s[0] == '+' then s[1..] else s;
    assert digits != [] && AllDigits(digits) && DecimalValue(digits) == b;
    DigitsAreZerosThenShown(digits);
    var z: nat :| digits == Zeros(z) + ShowDecimal(b);
    if s[0] == '+' {
      assert s == "+" + digits == "+" + Zeros(z) + ShowDecimal(b);
    } else {
      assert s == Zeros(z) + ShowDecimal(b);
    }
  }

  /** Every such text is accepted, with the value of its decimal form. */
  lemma ParseU8OfZerosAndShown(z: nat, b: uint8)
    ensures ParseU8(Zeros(z) + ShowDecimal(b)) == Some(b)
    ensures ParseU8("+" + Zeros(z) + ShowDecimal(b)) == Some(b)
  {
    var digits := Zeros(z) + ShowDecimal(b);
    LeadingZerosValue(z, ShowDecimal(b));
    assert IsDigit(digits[0]);
    assert ("+" + digits)[1..] == digits;
    assert "+" + Zeros(z) + ShowDecimal(b) == "+" + digits;
  }

  /**
    The texts `ParseU8` accepts for a byte are exactly its decimal form, after
    any number of leading zeros and an optional `+`.
  */
  lemma ParseU8Accepts(s: string, b: uint8)
    ensures ParseU8(s) == Some(b) <==> exists z: nat :: s == Zeros(z) + ShowDecimal(b) || s == "+" + Zeros(z) + ShowDecimal(b)
  {
    if ParseU8(s) == Some(b) {
      ParseU8Shape(s, b);
    }
    if exists z: nat :: s == Zeros(z) + ShowDecimal(b) || s == "+" + Zeros(z) + ShowDecimal(b) {
      var z: nat :| s == Zeros(z) + ShowDecimal(b) || s == "+" + Zeros(z) + ShowDecimal(b);
      ParseU8OfZerosAndShown(z, b);
    }
  }

  /** Rust's own cases: leading zeros, overflow, a bare sign, a minus sign, whitespace. */
  lemma ParseU8Cases()
    ensures ParseU8("007") == Some(7)
    ensures ParseU8("+255") == Some(255)
    ensures ParseU8("256") == None
    ensures ParseU8("") == None && ParseU8("+") == None
    ensures ParseU8("-1") == None && ParseU8(" 1") == None && ParseU8("1\n") == None
  {
    assert "007"[..2] == "00" && "00"[..1] == "0" && "0"[..0] == [];
    assert "256"[..2] == "25" && "25"[..1] == "2" && "2"[..0] == [];
    assert "+255"[1..] == "255";
    assert "255"[..2] == "25";
    assert !IsDigit('-') && !IsDigit(' ') && !IsDigit('\n');
  }

  /** A decimal form never ends in whitespace, so a trailing newline is all that `TrimEnd` removes. */
  lemma TrimEndShowLine(n: nat)
    ensures TrimEnd(ShowDecimal(n) + "\n") == ShowDecimal(n)
  {
  }
}
