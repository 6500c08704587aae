/** Numbers as text: Python's `float(text)` on plain decimal literals, `int(x)` on a
    float, and `str(n)` / `f"{n}"` on an integer. */
module NumText {
  import opened TextUtil

  datatype Option<+T> = None | Some(value: T)

  function DigitValue(c: char): nat
    requires IsDigit(c)
  {
    (c as int) - ('0' as int)
  }

  function DigitChar(d: nat): (c: char)
    requires d < 10
    ensures IsDigit(c) && DigitValue(c) == d
  {
    ((('0' as int) + d) as char)
  }

  /** The number a string of decimal digits denotes (most significant first). */
  function DigitsValue(s: string): nat
    requires AllDigits(s)
  {
    if s == [] then 0 else 10 * DigitsValue(s[..|s| - 1]) + DigitValue(s[|s| - 1])
  }

  /** `str(n)` for a natural number: no sign, no leading zeros. */
  function NatToString(n: nat): (s: string)
    ensures |s| >= 1 && AllDigits(s)
    ensures DigitsValue(s) == n
  {
    if n < 10 then [DigitChar(n)]
    else
      var s := NatToString(n / 10) + [DigitChar(n % 10)];
      assert s[..|s| - 1] == NatToString(n / 10);
      s
  }

  /** `str(i)` for an integer: a minus sign before the digits of a negative number. */
  function IntToString(i: int): (s: string)
    ensures |s| >= 1 && IsDigit(s[|s| - 1])
    ensures s[0] == '-' || IsDigit(s[0])
    ensures forall k :: 0 <= k < |s| ==> s[k] == '-' || IsDigit(s[k])
  {
    if i < 0 then "-" + NatToString(-i) else NatToString(i)
  }

  function Pow10(k: nat): (p: nat)
    ensures p >= 1
  {
    if k == 0 then 1 else 10 * Pow10(k - 1)
  }

  /** Index of the first `c` in `s`, if any. */
  function IndexOf(s: string, c: char): (r: Option<nat>)
    ensures r.None? <==> c !in s
    ensures r.Some? ==> r.value < |s| && s[r.value] == c && c !in s[..r.value]
  {
    if s == [] then None
    else if s[0] == c then Some(0)
    else
      match IndexOf(s[1..], c)
      case None => None
      case Some(k) =>
        assert s[..k + 1] == [s[0]] + s[1..][..k];
        Some(k + 1)
  }

  /** An unsigned decimal literal: digits, optionally a point and more digits,
      with at least one digit somewhere (`"12"`, `"12."`, `".5"`, `"12.50"`). */
  function ParseUnsigned(t: string): (r: Option<real>)
    ensures r.Some? ==> r.value >= 0.0
  {
    match IndexOf(t, '.')
    case None =>
      if t != [] && AllDigits(t) then Some(DigitsValue(t) as real) else None
    case Some(k) =>
      var whole, frac := t[..k], t[k + 1..];
      if AllDigits(whole) && AllDigits(frac) && |whole| + |frac| >= 1
      then Some(DigitsValue(whole) as real + (DigitsValue(frac) as real) / (Pow10(|frac|) as real))
      else None
  }

  /** Python's `float(s)` restricted to plain decimal literals: surrounding whitespace,
      an optional sign, then an unsigned literal. `None` stands for the `ValueError`. */
  function ParseFloat(s: string): (r: Option<real>)
  {
    var t := Strip(s);
    if t != [] && t[0] == '-' then
      match ParseUnsigned(t[1..])
      case None => None
      case Some(v) => Some(-v)
    else if t != [] && t[0] == '+' then ParseUnsigned(t[1..])
    else ParseUnsigned(t)
  }

  /** `float(str(x).replace(',', ''))`, with `0.0` when that raises: how every numeric
      cell of a performance table is read. */
  function Amount(text: string): real {
    match ParseFloat(RemoveChar(text, ','))
    case Some(v) => v
    case None => 0.0
  }

  /** Python's `int(x)` on a float: truncation toward zero. */
  function Trunc(x: real): (i: int)
    ensures x >= 0.0 ==> i as real <= x < i as real + 1.0
    ensures x < 0.0 ==> i as real - 1.0 < x <= i as real
  {
    if x >= 0.0 then x.Floor else -((-x).Floor)
  }

  /** A real with no fractional part. */
  predicate Integral(x: real) {
    x.Floor as real == x
  }

  /** Truncating an integral value gives the integer it denotes. */
  lemma TruncIntegral(x: real)
    requires Integral(x)
    ensures Trunc(x) as real == x
  {
    if x < 0.0 {
      var n := x.Floor;
      assert -x == (-n) as real;
      assert (-x).Floor == -n;
    }
  }

  /** Reading back the text of an integer gives the integer. */
  lemma {:induction false} ParseIntToString(i: int)
    ensures ParseFloat(IntToString(i)) == Some(i as real)
  {
    var s := IntToString(i);
    assert s == [] || (!IsSpace(s[0]) && !IsSpace(s[|s| - 1]));
    StripUnchanged(s);
    if i < 0 {
      var d := NatToString(-i);
      assert s[1..] == d && s[0] == '-';
      assert IndexOf(d, '.') == None;
    } else {
      assert IndexOf(s, '.') == None;
    }
  }

  /** `Amount` of an integer's text is that integer (there is no comma to remove). */
  lemma AmountIntToString(i: int)
    ensures Amount(IntToString(i)) == i as real
  {
    var s := IntToString(i);
    RemoveCharAbsent(s, ',');
    ParseIntToString(i);
  }

  /** Removing a character that does not occur changes nothing. */
  lemma {:induction false} RemoveCharAbsent(s: string, c: char)
    requires c !in s
    ensures RemoveChar(s, c) == s
  {
    if s != [] {
      RemoveCharAbsent(s[1..], c);
      assert s == [s[0]] + s[1..];
    }
  }

  /** Removing a character distributes over concatenation. */
  lemma {:induction false} RemoveCharConcat(a: string, b: string, c: char)
    ensures RemoveChar(a + b, c) == RemoveChar(a, c) + RemoveChar(b, c)
  {
    if a != [] {
      RemoveCharConcat(a[1..], b, c);
      assert (a + b)[1..] == a[1..] + b;
    } else {
      assert a + b == b;
    }
  }

  /** Thousands separators are ignored wherever they stand: a comma inserted anywhere
      does not change the amount a cell reads as. */
  lemma AmountIgnoresSeparator(a: string, b: string)
    ensures Amount(a + [','] + b) == Amount(a + b)
  {
    RemoveSeparator(a, b);
  }

  lemma RemoveSeparator(a: string, b: string)
    ensures RemoveChar(a + [','] + b, ',') == RemoveChar(a + b, ',')
  {
    var ra, rb := RemoveChar(a, ','), RemoveChar(b, ',');
    assert RemoveChar([','], ',') == "" by {
      assert [','][1..] == "";
    }
    RemoveCharConcat(a, [','], ',');
    assert RemoveChar(a + [','], ',') == ra;
    RemoveCharConcat(a + [','], b, ',');
    RemoveCharConcat(a, b, ',');
  }

}
