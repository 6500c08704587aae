/** The manager view's helpers (manage.py): goal tiers typed as comma-separated numbers,
    the shortfall to the next goal, the clean-up of Excel's `_xHHHH_` escapes in manager
    codes, and the containment test that picks a manager's agents. */
module Manage {
  import opened TextUtil
  import opened NumText
  import opened Sorting

  // ---------------------------------------------------------------------------
  // Goal tiers (manage.py:93-96)
  // ---------------------------------------------------------------------------

  /** A token `x` is kept when `x.strip().isdigit()`: non-empty and all digits. */
  predicate DigitToken(x: string) {
    Strip(x) != [] && AllDigits(Strip(x))
  }

  /** `float(x.strip())` for a kept token. */
  function TokenValue(x: string): real
    requires DigitToken(x)
  {
    DigitsValue(Strip(x)) as real
  }

  /** The list comprehension over `goal_tiers.split(",")`, in input order. */
  function Kept(tokens: seq<string>): seq<real> {
    if tokens == [] then []
    else
      var rest := Kept(tokens[1..]);
      if DigitToken(tokens[0]) then [TokenValue(tokens[0])] + rest else rest
  }

  /** Negation: sorting by it in non-increasing order sorts in non-decreasing order. */
  function Neg(x: real): real {
    -x
  }

  ghost predicate SortedAsc(s: seq<real>) {
    forall i, j :: 0 <= i < j < |s| ==> s[i] <= s[j]
  }

  /** `sorted(tiers_list)`: ascending. */
  function SortAsc(s: seq<real>): seq<real> {
    SortDescBy(s, Neg)
  }

  /** The goals stored for a column: `None` when the field is empty and nothing is
      stored, otherwise the digit tokens' values in ascending order. */
  function ParseGoalTiers(text: string): Option<seq<real>> {
    if text == [] then None else Some(SortAsc(Kept(Split(text, ','))))
  }

  /** `admin_goals[goal_col] = ...` when the button is pressed. */
  function SetGoal(goals: map<string, seq<real>>, col: string, text: string): map<string, seq<real>> {
    match ParseGoalTiers(text)
    case None => goals
    case Some(ts) => goals[col := ts]
  }

  /** A value is kept exactly when some token is all digits once stripped and reads as it. */
  lemma {:induction false} KeptSpec(tokens: seq<string>)
    ensures forall x :: x in Kept(tokens) <==>
      exists k :: 0 <= k < |tokens| && DigitToken(tokens[k]) && TokenValue(tokens[k]) == x
    ensures forall k :: 0 <= k < |Kept(tokens)| ==> Kept(tokens)[k] >= 0.0 && Integral(Kept(tokens)[k])
  {
    if tokens != [] {
      KeptSpec(tokens[1..]);
      forall x ensures x in Kept(tokens) <==>
        exists k :: 0 <= k < |tokens| && DigitToken(tokens[k]) && TokenValue(tokens[k]) == x
      {
        if x in Kept(tokens[1..]) {
          var k :| 0 <= k < |tokens[1..]| && DigitToken(tokens[1..][k]) && TokenValue(tokens[1..][k]) == x;
          assert tokens[k + 1] == tokens[1..][k];
        }
        if exists k :: 0 <= k < |tokens| && DigitToken(tokens[k]) && TokenValue(tokens[k]) == x {
          var k :| 0 <= k < |tokens| && DigitToken(tokens[k]) && TokenValue(tokens[k]) == x;
          if k > 0 {
            assert tokens[1..][k - 1] == tokens[k];
          }
        }
      }
    }
  }

  /** The stored goals are sorted ascending and are exactly the digit tokens' values,
      with repeats kept; an empty field stores nothing. */
  lemma GoalTiersSpec(text: string)
    ensures ParseGoalTiers(text).None? <==> text == []
    ensures ParseGoalTiers(text).Some? ==>
      var ts := ParseGoalTiers(text).value;
      SortedAsc(ts) && multiset(ts) == multiset(Kept(Split(text, ',')))
      && forall x :: x in ts <==> exists k :: 0 <= k < |Split(text, ',')| && DigitToken(Split(text, ',')[k])
                                             && TokenValue(Split(text, ',')[k]) == x
  {
    if text != [] {
      var kept := Kept(Split(text, ','));
      var ts := SortAsc(kept);
      KeptSpec(Split(text, ','));
      assert SortedDescBy(ts, Neg);
      assert SortedAsc(ts) by {
        forall i, j | 0 <= i < j < |ts| ensures ts[i] <= ts[j] {
          assert Neg(ts[i]) >= Neg(ts[j]);
        }
      }
      forall x ensures x in ts <==> x in kept {
        assert x in ts <==> x in multiset(ts);
        assert x in kept <==> x in multiset(kept);
      }
    }
  }

  /** Spaces around the numbers do not matter and a token with any other character is
      dropped: `" 20, 10,abc"` stores `[10, 20]`. */
  lemma GoalTiersExample()
    ensures ParseGoalTiers(" 20, 10,abc") == Some([10.0, 20.0])
  {
    ExampleSplit();
    ExampleKept();
    ExampleSort();
  }

  lemma ExampleKept()
    ensures Kept([" 20", " 10", "abc"]) == [20.0, 10.0]
  {
    var a, b, c := " 20", " 10", "abc";
    var tokens := [a, b, c];
    ExampleTokens();
    assert tokens[1..] == [b, c] && [b, c][1..] == [c] && [c][1..] == [];
    assert Kept([c]) == [];
    assert Kept([b, c]) == [10.0];
  }

  lemma ExampleSort()
    ensures SortAsc([20.0, 10.0]) == [10.0, 20.0]
  {
    assert [20.0, 10.0][1..] == [10.0];
    assert SortDescBy([10.0], Neg) == [10.0] by {
      assert [10.0][1..] == [];
    }
    assert InsertDesc(20.0, [10.0], Neg) == [10.0, 20.0] by {
      assert [10.0][1..] == [];
      assert InsertDesc(20.0, [], Neg) == [20.0];
    }
  }

  lemma ExampleSplit()
    ensures Split(" 20, 10,abc", ',') == [" 20", " 10", "abc"]
  {
    var a, b, c := " 20", " 10", "abc";
    assert " 20, 10,abc" == a + [','] + (b + [','] + c);
    SplitAfterPiece(a, b + [','] + c, ',');
    SplitAfterPiece(b, c, ',');
    SplitNoSep(c, ',');
  }

  lemma ExampleTokens()
    ensures DigitToken(" 20") && TokenValue(" 20") == 20.0
    ensures DigitToken(" 10") && TokenValue(" 10") == 10.0
    ensures !DigitToken("abc")
  {
    assert " 20"[1..] == "20" && " 10"[1..] == "10";
    DigitsStripUnchanged("20");
    DigitsStripUnchanged("10");
    assert TrimLeft(" 20") == "20";
    assert TrimLeft(" 10") == "10";
    assert "20"[..1] == "2" && "10"[..1] == "1" && "2"[..0] == "" && "1"[..0] == "";
    StripUnchanged("abc");
    assert !IsDigit("abc"[0]);
  }

  // ---------------------------------------------------------------------------
  // Shortfall to the next goal (manage.py:168-172)
  // ---------------------------------------------------------------------------

  /** `calc_shortfall`'s two outcomes: the next goal and how much is missing, or the
      top goal already reached (`"최고 구간 달성"`, gap `0`). */
  datatype Shortfall = NextGoal(goal: real, gap: real) | TopReached

  /** The first goal, in stored order, that `val` is below. */
  function ShortfallOf(goals: seq<real>, val: real): Shortfall {
    if goals == [] then TopReached
    else if val < goals[0] then NextGoal(goals[0], goals[0] - val)
    else ShortfallOf(goals[1..], val)
  }

  /** The loop of `calc_shortfall`: return at the first goal above `val`. */
  method CalcShortfall(goals: seq<real>, val: real) returns (r: Shortfall)
    ensures r == ShortfallOf(goals, val)
  {
    var i := 0;
    while i < |goals|
      invariant 0 <= i <= |goals|
      invariant ShortfallOf(goals[i..], val) == ShortfallOf(goals, val)
    {
      assert goals[i..][1..] == goals[i + 1..];
      if val < goals[i] {
        return NextGoal(goals[i], goals[i] - val);
      }
      i := i + 1;
    }
    return TopReached;
  }

  /** The first goal above `val`, in stored order, with the gap from `val` to it. */
  lemma {:induction false} ShortfallFirst(goals: seq<real>, val: real)
    ensures ShortfallOf(goals, val).TopReached? <==> forall k :: 0 <= k < |goals| ==> goals[k] <= val
    ensures ShortfallOf(goals, val).NextGoal? ==>
      var r := ShortfallOf(goals, val);
      exists j :: 0 <= j < |goals| && goals[j] == r.goal && val < r.goal && r.gap == r.goal - val
        && forall k :: 0 <= k < j ==> goals[k] <= val
  {
    if goals != [] && !(val < goals[0]) {
      ShortfallFirst(goals[1..], val);
      var r := ShortfallOf(goals, val);
      if r.NextGoal? {
        var j :| 0 <= j < |goals[1..]| && goals[1..][j] == r.goal && val < r.goal && r.gap == r.goal - val
          && forall k :: 0 <= k < j ==> goals[1..][k] <= val;
        assert goals[j + 1] == r.goal;
        assert forall k :: 0 <= k < j + 1 ==> goals[k] <= val by {
          forall k | 0 <= k < j + 1 ensures goals[k] <= val {
            if k > 0 { assert goals[k] == goals[1..][k - 1]; }
          }
        }
      }
      assert (forall k :: 0 <= k < |goals| ==> goals[k] <= val) <==> (forall k :: 0 <= k < |goals[1..]| ==> goals[1..][k] <= val) by {
        if forall k :: 0 <= k < |goals[1..]| ==> goals[1..][k] <= val {
          forall k | 0 <= k < |goals| ensures goals[k] <= val {
            if k > 0 { assert goals[k] == goals[1..][k - 1]; }
          }
        }
      }
    }
  }

  /** With goals stored ascending, as the goal editor stores them, the next goal is the
      smallest goal above `val` and the gap is positive; the top is reached exactly when
      no goal is above `val`, which includes an empty goal list. */
  lemma ShortfallSmallest(goals: seq<real>, val: real)
    requires SortedAsc(goals)
    ensures ShortfallOf(goals, val).TopReached? <==> forall k :: 0 <= k < |goals| ==> goals[k] <= val
    ensures ShortfallOf(goals, val).NextGoal? ==>
      var r := ShortfallOf(goals, val);
      r.goal in goals && val < r.goal && r.gap > 0.0 && r.gap == r.goal - val
      && forall k :: 0 <= k < |goals| && val < goals[k] ==> r.goal <= goals[k]
  {
    ShortfallFirst(goals, val);
    var r := ShortfallOf(goals, val);
    if r.NextGoal? {
      var j :| 0 <= j < |goals| && goals[j] == r.goal && val < r.goal && r.gap == r.goal - val
        && forall k :: 0 <= k < j ==> goals[k] <= val;
      forall k | 0 <= k < |goals| && val < goals[k] ensures r.goal <= goals[k] {
        assert j <= k;
      }
    }
  }

  // ---------------------------------------------------------------------------
  // Manager codes (manage.py:132-134)
  // ---------------------------------------------------------------------------

  predicate IsHex(c: char) {
    IsDigit(c) || 'a' <= c <= 'f' || 'A' <= c <= 'F'
  }

  /** The regular expression `_x[0-9a-fA-F]{4}_` matches at index `i`. */
  predicate EscapeAt(s: string, i: int) {
    0 <= i && i + 7 <= |s| && s[i] == '_' && s[i + 1] == 'x'
    && IsHex(s[i + 2]) && IsHex(s[i + 3]) && IsHex(s[i + 4]) && IsHex(s[i + 5]) && s[i + 6] == '_'
  }

  /** `re.sub(r'_x[0-9a-fA-F]{4}_', '', s)`: one left-to-right pass deleting each match;
      a match is looked for again only after the end of the previous one. */
  function CleanCode(s: string): (r: string)
    ensures |r| <= |s|
    decreases |s|
  {
    if s == [] then []
    else if EscapeAt(s, 0) then CleanCode(s[7..])
    else [s[0]] + CleanCode(s[1..])
  }

  /** The cleaning changes a code exactly when an escape occurs in it, and then shortens it. */
  lemma {:induction false} CleanCodeChanges(s: string)
    ensures CleanCode(s) == s <==> forall i :: !EscapeAt(s, i)
    ensures (exists i :: EscapeAt(s, i)) ==> |CleanCode(s)| < |s|
    decreases |s|
  {
    if s != [] {
      if EscapeAt(s, 0) {
        assert |CleanCode(s)| < |s|;
      } else {
        CleanCodeChanges(s[1..]);
        forall i | EscapeAt(s[1..], i) ensures EscapeAt(s, i + 1) {
        }
        forall i | EscapeAt(s, i) ensures EscapeAt(s[1..], i - 1) {
          assert i != 0;
        }
        if CleanCode(s) == s {
          assert CleanCode(s[1..]) == s[1..];
        } 
        if CleanCode(s[1..]) == s[1..] {
          assert s == [s[0]] + s[1..];
        }
      }
    }
  }

  /** The pass follows the leftmost-match rule of `re.sub`: the text before the first
      escape is kept as it is, that escape's seven characters are deleted, and the search
      goes on after them. With `CleanCodeChanges` (no escape: nothing changes) this fixes
      the result of every input. */
  lemma {:induction false} CleanCodeFirstEscape(s: string, i: int)
    requires EscapeAt(s, i) && forall j :: 0 <= j < i ==> !EscapeAt(s, j)
    ensures CleanCode(s) == s[..i] + CleanCode(s[i + 7..])
    decreases i
  {
    if i > 0 {
      var t := s[1..];
      assert EscapeAt(t, i - 1);
      forall j | 0 <= j < i - 1 ensures !EscapeAt(t, j) {
        assert !EscapeAt(s, j + 1);
      }
      CleanCodeFirstEscape(t, i - 1);
      assert t[i - 1 + 7..] == s[i + 7..];
      assert [s[0]] + t[..i - 1] == s[..i];
      assert !EscapeAt(s, 0);
    }
  }

  /** The pass is not idempotent: deleting an escape can bring two halves together into
      a new one. For any four hex digits `d`, `"_x_x" + d + "_" + d + "_"` cleans to
      `"_x" + d + "_"`, which cleans to `""` (`"_x_x0041_0041_"`, `"_x0041_"`, `""`). */
  lemma CleanCodeNotIdempotent(d: string)
    requires |d| == 4 && forall k :: 0 <= k < 4 ==> IsHex(d[k])
    ensures CleanCode("_x" + ("_x" + d + "_") + (d + "_")) == "_x" + d + "_"
    ensures CleanCode("_x" + d + "_") == ""
  {
    var e, tail := "_x" + d + "_", d + "_";
    HexEscape(d);
    CleanHexTail(d);
    CleanEscape(e, tail);
    CleanTwoKept(e + tail, tail);
    assert "_x" + e + tail == ['_', 'x'] + (e + tail);
    assert ['_', 'x'] + tail == e;
    CleanEscape(e, "");
    assert e + "" == e;
  }

  /** `"_x"` in front of text that starts with an underscore is no escape and is kept. */
  lemma CleanTwoKept(r: string, t: string)
    requires CleanCode(r) == t && |r| >= 1 && r[0] == '_'
    ensures CleanCode(['_', 'x'] + r) == ['_', 'x'] + t
  {
    var t1 := ['x'] + r;
    var s := ['_'] + t1;
    assert CleanCode(t1) == ['x'] + t by {
      assert t1[1..] == r;
      CleanKeep(t1);
    }
    assert CleanCode(s) == ['_'] + (['x'] + t) by {
      assert s[1..] == t1 && s[2] == r[0];
      CleanKeep(s);
    }
    assert s == ['_', 'x'] + r;
    assert ['_'] + (['x'] + t) == ['_', 'x'] + t;
  }

  lemma HexEscape(d: string)
    requires |d| == 4 && forall k :: 0 <= k < 4 ==> IsHex(d[k])
    ensures EscapeAt("_x" + d + "_", 0) && |"_x" + d + "_"| == 7
  {
  }

  /** Hex digits and an underscore hold no escape. */
  lemma CleanHexTail(d: string)
    requires |d| == 4 && forall k :: 0 <= k < 4 ==> IsHex(d[k])
    ensures CleanCode(d + "_") == d + "_"
  {
    var tail := d + "_";
    forall k | 0 <= k < |tail| ensures tail[k] != 'x' {
      if k < 4 { assert tail[k] == d[k]; }
    }
    CleanCodeNoX(tail);
  }

  /** An escape at the front is deleted. */
  lemma CleanEscape(e: string, rest: string)
    requires |e| == 7 && EscapeAt(e, 0)
    ensures CleanCode(e + rest) == CleanCode(rest)
  {
    assert (e + rest)[7..] == rest;
  }

  /** A character that does not start an escape is kept. */
  lemma CleanKeep(s: string)
    requires s != [] && !EscapeAt(s, 0)
    ensures CleanCode(s) == [s[0]] + CleanCode(s[1..])
  {
  }

  /** Text without an `x` holds no escape and is left alone. */
  lemma {:induction false} CleanCodeNoX(s: string)
    requires 'x' !in s
    ensures CleanCode(s) == s
  {
    if s != [] {
      assert !EscapeAt(s, 0) by {
        if |s| >= 2 { assert s[1] in s; }
      }
      assert 'x' !in s[1..] by {
        assert forall k :: 0 <= k < |s[1..]| ==> s[1..][k] == s[k + 1];
      }
      CleanCodeNoX(s[1..]);
    }
  }

  /** `str.contains(manager_code)`: the entered code occurs in the cleaned code. For the
      digit codes managers enter, the regular expression is the literal text. */
  function ManagerMatches(cell: string, entered: string): bool {
    HasSubstring(CleanCode(cell), entered)
  }

  /** `my_df = df[mask]`: the indices of the rows whose manager code matches, in order. */
  function ManagedRows(cells: seq<string>, entered: string): (r: seq<nat>)
    ensures forall k :: 0 <= k < |r| ==> r[k] < |cells|
  {
    if cells == [] then []
    else
      var last := |cells| - 1;
      ManagedRows(cells[..last], entered) + (if ManagerMatches(cells[last], entered) then [last] else [])
  }

  /** `t` occurs somewhere in `s`. */
  ghost predicate Occurs(s: string, t: string) {
    exists i :: OccursAt(s, t, i)
  }

  /** A row is selected exactly when the entered code occurs in its cleaned manager code,
      and the selection keeps the table's row order without repeats. */
  lemma ManagedRowsSpec(cells: seq<string>, entered: string)
    ensures forall k :: 0 <= k < |cells| ==>
      (k in ManagedRows(cells, entered) <==> Occurs(CleanCode(cells[k]), entered))
    ensures forall a, b :: 0 <= a < b < |ManagedRows(cells, entered)| ==>
      ManagedRows(cells, entered)[a] < ManagedRows(cells, entered)[b]
  {
    forall k | 0 <= k < |cells|
      ensures k in ManagedRows(cells, entered) <==> Occurs(CleanCode(cells[k]), entered)
    {
      ManagedRowsMember(cells, entered, k);
      HasSubstringIff(CleanCode(cells[k]), entered);
    }
    ManagedRowsIncreasing(cells, entered);
  }

  lemma {:induction false} ManagedRowsMember(cells: seq<string>, entered: string, k: int)
    requires 0 <= k < |cells|
    ensures k in ManagedRows(cells, entered) <==> ManagerMatches(cells[k], entered)
  {
    var last := |cells| - 1;
    var init := cells[..last];
    var r0 := ManagedRows(init, entered);
    assert last !in r0;
    if k < last {
      ManagedRowsMember(init, entered, k);
      assert cells[k] == init[k];
    }
  }

  lemma {:induction false} ManagedRowsIncreasing(cells: seq<string>, entered: string)
    ensures forall a, b :: 0 <= a < b < |ManagedRows(cells, entered)| ==>
      ManagedRows(cells, entered)[a] < ManagedRows(cells, entered)[b]
  {
    if cells != [] {
      var last := |cells| - 1;
      var init := cells[..last];
      ManagedRowsIncreasing(init, entered);
      var r0 := ManagedRows(init, entered);
      var r := ManagedRows(cells, entered);
      forall a, b | 0 <= a < b < |r| ensures r[a] < r[b] {
        if b < |r0| {
          assert r[a] == r0[a] && r[b] == r0[b];
        } else {
          assert r[a] == r0[a] && r[b] == last;
        }
      }
    }
  }

  /** A code matches wherever it occurs in the cleaned cell, not only whole, and an escape
      in front of it is ignored: `"123"` selects rows managed by `"4123"` and by
      `"_x0033_123"`. */
  lemma MatchInside(prefix: string, code: string, d: string)
    requires 'x' !in prefix && 'x' !in code
    requires |d| == 4 && forall k :: 0 <= k < 4 ==> IsHex(d[k])
    ensures ManagerMatches(prefix + code, code)
    ensures ManagerMatches("_x" + d + "_" + code, code)
  {
    var s := prefix + code;
    assert 'x' !in s by {
      forall k | 0 <= k < |s| ensures s[k] != 'x' {
        if k < |prefix| { assert s[k] == prefix[k]; } else { assert s[k] == code[k - |prefix|]; }
      }
    }
    CleanCodeNoX(s);
    assert s[|prefix|..|prefix| + |code|] == code;
    HasSubstringWitness(s, code, |prefix|);
    HexEscape(d);
    CleanEscape("_x" + d + "_", code);
    CleanCodeNoX(code);
    assert code <= code;
  }

  lemma {:induction false} EmptyCodeSelectsAll(cells: seq<string>)
    ensures ManagedRows(cells, "") == seq(|cells|, k => k)
  {
    if cells != [] {
      var last := |cells| - 1;
      EmptyCodeSelectsAll(cells[..last]);
      assert ManagerMatches(cells[last], "");
      assert seq(|cells|, k => k) == seq(last, k => k) + [last];
    }
  }
}
