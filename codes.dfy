/** Spreadsheet cells and the code normaliser `safe_str` (prize.py:36-40). */
module Codes {
  import opened TextUtil
  import opened NumText

  /** One spreadsheet cell: missing (pandas NaN/None), or the text `str(value)` gives. */
  datatype Cell = Missing | Text(s: string)

  /** `str(value)` of a cell; a missing numeric cell prints as `nan`. */
  function CellText(c: Cell): string {
    match c
    case Missing => "nan"
    case Text(s) => s
  }

  /** `safe_str`: a missing cell becomes `""`; otherwise the text is stripped of outer
      whitespace and one trailing `".0"` (left by reading an integer code as a float)
      is dropped. */
  function SafeStr(c: Cell): string {
    match c
    case Missing => ""
    case Text(s) =>
      var t := Strip(s);
      if EndsWith(t, ".0") then t[..|t| - 2] else t
  }

  /** What `safe_str` promises: missing gives `""`; otherwise the result is the stripped
      text, or the stripped text less exactly one trailing `".0"` when it has one.
      Nothing else changes: no case folding, inner whitespace is kept, and the result
      never starts with whitespace. */
  lemma SafeStrSpec(c: Cell)
    ensures c.Missing? ==> SafeStr(c) == ""
    ensures c.Text? ==> SafeStr(c) <= Strip(c.s)
    ensures c.Text? ==> (EndsWith(Strip(c.s), ".0") <==> Strip(c.s) == SafeStr(c) + ".0")
    ensures c.Text? && !EndsWith(Strip(c.s), ".0") ==> SafeStr(c) == Strip(c.s)
    ensures SafeStr(c) == [] || !IsSpace(SafeStr(c)[0])
  {
    if c.Text? {
      var t := Strip(c.s);
      var start := StripSpec(c.s);
      if EndsWith(t, ".0") {
        assert t == t[..|t| - 2] + ".0";
      }
    }
  }

  /** A code exported as a float (`"12345.0"`, possibly padded) normalises to the
      integer's own text, which is also what the integer itself normalises to. */
  lemma SafeStrIntegralCode(n: nat, pad: string)
    requires forall k :: 0 <= k < |pad| ==> IsSpace(pad[k])
    ensures SafeStr(Text(pad + NatToString(n) + ".0" + pad)) == NatToString(n)
    ensures SafeStr(Text(NatToString(n))) == NatToString(n)
  {
    var d := NatToString(n);
    var s := pad + d + ".0" + pad;
    assert (d + ".0")[0] == d[0];
    assert s == pad + (d + ".0") + pad;
    StripPadded(pad, d + ".0");
    assert Strip(s) == d + ".0";
    assert (d + ".0")[..|d + ".0"| - 2] == d;
    DigitsStripUnchanged(d);
    assert !EndsWith(d, ".0") by {
      if |d| >= 2 { assert d[|d| - 2..][1] == d[|d| - 1]; }
    }
  }

  /** Whitespace padding on both sides of a string without outer whitespace is what
      `strip` removes. */
  lemma StripPadded(pad: string, t: string)
    requires forall k :: 0 <= k < |pad| ==> IsSpace(pad[k])
    requires t != [] && !IsSpace(t[0]) && !IsSpace(t[|t| - 1])
    ensures Strip(pad + t + pad) == t
  {
    assert pad + t + pad == pad + (t + pad);
    TrimLeftPadded(pad, t + pad);
    TrimRightPadded(t, pad);
  }

  lemma {:induction false} TrimLeftPadded(pad: string, t: string)
    requires forall k :: 0 <= k < |pad| ==> IsSpace(pad[k])
    requires t != [] && !IsSpace(t[0])
    ensures TrimLeft(pad + t) == t
  {
    if pad == [] {
      assert pad + t == t;
    } else {
      assert (pad + t)[1..] == pad[1..] + t;
      TrimLeftPadded(pad[1..], t);
    }
  }

  lemma {:induction false} TrimRightPadded(t: string, pad: string)
    requires forall k :: 0 <= k < |pad| ==> IsSpace(pad[k])
    requires t != [] && !IsSpace(t[|t| - 1])
    ensures TrimRight(t + pad) == t
  {
    if pad == [] {
      assert t + pad == t;
    } else {
      assert (t + pad)[..|t + pad| - 1] == t + pad[..|pad| - 1];
      TrimRightPadded(t, pad[..|pad| - 1]);
    }
  }

  /** `safe_str` leaves alone a code that has no outer whitespace and no trailing `".0"`,
      so on such codes it is the identity. */
  lemma SafeStrUnchanged(s: string)
    requires s == [] || (!IsSpace(s[0]) && !IsSpace(s[|s| - 1]))
    requires !EndsWith(s, ".0")
    ensures SafeStr(Text(s)) == s
  {
    StripUnchanged(s);
  }

  /** Exactly one `".0"` is removed: `"12.0.0"` becomes `"12.0"`, not `"12"`. */
  lemma SafeStrRemovesOnce()
    ensures SafeStr(Text("12.0.0")) == "12.0"
    ensures SafeStr(Text("12.0")) == "12"
  {
    StripUnchanged("12.0.0");
    StripUnchanged("12.0");
    assert "12.0.0"[..4] == "12.0";
    assert "12.0"[..2] == "12";
  }
}
