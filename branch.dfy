/** The agent login lookup (prize.py:895-928): an agent types a name and a branch code,
    and every non-cumulative scheme's table is searched for rows with that name whose
    branch text carries the code; the codes of those rows are collected. */
module Branch {
  import opened TextUtil
  import opened NumText
  import opened Codes
  import opened Engine
  import opened NearMiss

  /** `.fillna('').astype(str)` on a text column: a missing cell reads as `""`. */
  function FillText(c: Cell): string {
    match c
    case Missing => ""
    case Text(s) => s
  }

  /** How the typed branch code is used. */
  datatype BranchMode =
    | NameOnly               // `"0000"`: the branch is not checked
    | ByBranch(code: string) // the code with `"지점"` removed, stripped
    | NoBranch               // nothing is left after the clean-up: nothing matches

  /** prize.py:912-922. */
  function ModeOf(input: string): BranchMode {
    if Strip(input) == "0000" then NameOnly
    else
      var clean := Strip(DeleteAll(input, "지점"));
      if clean != "" then ByBranch(clean) else NoBranch
  }

  /** From index `j`, `\s*지점` matches: whitespace, then `"지점"`. */
  ghost predicate SuffixAt(text: string, j: nat) {
    exists e :: j <= e && e + 2 <= |text| && OccursAt(text, "지점", e) && forall m :: j <= m < e ==> IsSpace(text[m])
  }

  /** `(?<!\d){code}\s*지점` matches at index `i`, for a code of plain characters. */
  ghost predicate PatternAt(text: string, code: string, i: int) {
    OccursAt(text, code, i) && (i == 0 || !IsDigit(text[i - 1])) && SuffixAt(text, i + |code|)
  }

  /** `str.contains(pattern)`: the pattern matches somewhere. */
  ghost predicate BranchHas(text: string, code: string) {
    exists i :: PatternAt(text, code, i)
  }

  /** The greedy `\s*` followed by `지점`, as the regular-expression engine tries it; since
      `지` is not whitespace, no backtracking is ever needed. */
  function SuffixFrom(text: string, j: nat): bool
    decreases |text| - j
  {
    if j < |text| && IsSpace(text[j]) then SuffixFrom(text, j + 1)
    else j <= |text| && "지점" <= text[j..]
  }

  /** The search for the pattern from index `i` on. */
  function SearchFrom(text: string, code: string, i: nat): bool
    decreases |text| - i
  {
    if i + |code| > |text| then false
    else MatchHere(text, code, i) || SearchFrom(text, code, i + 1)
  }

  /** The pattern tried at index `i`. */
  function MatchHere(text: string, code: string, i: nat): bool
    requires i + |code| <= |text|
  {
    text[i..i + |code|] == code && (i == 0 || !IsDigit(text[i - 1])) && SuffixFrom(text, i + |code|)
  }

  lemma MatchHereSpec(text: string, code: string, i: nat)
    requires i + |code| <= |text|
    ensures MatchHere(text, code, i) <==> PatternAt(text, code, i)
  {
    SuffixFromSpec(text, i + |code|);
  }

  /** The branch text carries the code. */
  function BranchMatches(text: string, code: string): bool {
    SearchFrom(text, code, 0)
  }

  lemma {:induction false} SuffixFromSpec(text: string, j: nat)
    ensures SuffixFrom(text, j) <==> SuffixAt(text, j)
    decreases |text| - j
  {
    if j < |text| && IsSpace(text[j]) {
      SuffixFromSpec(text, j + 1);
      if SuffixAt(text, j + 1) {
        var e :| j + 1 <= e && e + 2 <= |text| && OccursAt(text, "지점", e) && forall m :: j + 1 <= m < e ==> IsSpace(text[m]);
        assert forall m :: j <= m < e ==> IsSpace(text[m]);
        assert SuffixAt(text, j);
      }
      if SuffixAt(text, j) {
        var e :| j <= e && e + 2 <= |text| && OccursAt(text, "지점", e) && forall m :: j <= m < e ==> IsSpace(text[m]);
        JeAt(text, e);
        assert j + 1 <= e;
        assert SuffixAt(text, j + 1);
      }
    } else {
      if SuffixAt(text, j) {
        var e :| j <= e && e + 2 <= |text| && OccursAt(text, "지점", e) && forall m :: j <= m < e ==> IsSpace(text[m]);
        JeAt(text, e);
        assert j < |text|;
        assert !IsSpace(text[j]);
        assert e == j;
        assert text[j..][..2] == text[j..j + 2];
      }
      if SuffixFrom(text, j) {
        assert text[j..j + 2] == text[j..][..2];
        assert OccursAt(text, "지점", j);
        assert SuffixAt(text, j);
      }
    }
  }

  /** Where `"지점"` occurs the character is `지`, which is not whitespace. */
  lemma JeAt(text: string, e: int)
    requires OccursAt(text, "지점", e)
    ensures text[e] == '지' && !IsSpace(text[e])
  {
    assert text[e..e + 2][0] == text[e];
  }

  lemma {:induction false} SearchFromSpec(text: string, code: string, i: nat)
    ensures SearchFrom(text, code, i) <==> exists p :: i <= p && PatternAt(text, code, p)
    decreases |text| - i
  {
    if i + |code| <= |text| {
      SearchFromSpec(text, code, i + 1);
      MatchHereSpec(text, code, i);
      if exists p :: i <= p && PatternAt(text, code, p) {
        var p :| i <= p && PatternAt(text, code, p);
        if p != i {
          assert i + 1 <= p;
        }
      }
    } else {
      forall p | i <= p ensures !PatternAt(text, code, p) {
        assert !OccursAt(text, code, p);
      }
    }
  }

  /** The search finds the pattern exactly when it matches somewhere. */
  lemma BranchMatchesSpec(text: string, code: string)
    ensures BranchMatches(text, code) <==> BranchHas(text, code)
  {
    SearchFromSpec(text, code, 0);
  }

  /** A row of the table the agent asked for: its stripped name equals the stripped typed
      name and, unless the code is `"0000"`, its branch text carries the cleaned code. */
  predicate RowMatches(row: Row, nameCol: string, branchCol: string, userName: string, mode: BranchMode) {
    Strip(FillText(CellAt(row, nameCol))) == Strip(userName)
    && match mode
       case NameOnly => true
       case ByBranch(code) => BranchMatches(FillText(CellAt(row, branchCol)), code)
       case NoBranch => false
  }

  /** Whether a scheme's table is searched: not cumulative, its table loaded, its name
      column present and, when the branch is checked, its branch column present. */
  predicate Searched(cfg: Config, data: map<string, Table>, mode: BranchMode) {
    cfg.category != Some("cumulative") && cfg.file in data
    && ColumnUsable(cfg.colName, data[cfg.file])
    && (mode.ByBranch? ==> ColumnUsable(cfg.colBranch, data[cfg.file]))
  }

  /** The non-empty codes of the matching rows among `rows`. */
  function MatchCodes(rows: seq<Row>, nameCol: string, branchCol: string, codeCol: string,
                      userName: string, mode: BranchMode): set<string> {
    UnionOf(rows, RowCodeOf(nameCol, branchCol, codeCol, userName, mode))
  }

  /** What one row adds: its code, when the row matches and the code is non-empty. */
  function RowCodeOf(nameCol: string, branchCol: string, codeCol: string,
                     userName: string, mode: BranchMode): Row -> set<string> {
    row =>
      var c := SafeStr(CellAt(row, codeCol));
      if RowMatches(row, nameCol, branchCol, userName, mode) && c != "" then {c} else {}
  }

  /** What one scheme adds to `codes_found`. */
  function SchemeCodes(cfg: Config, data: map<string, Table>, userName: string, mode: BranchMode): set<string> {
    if Searched(cfg, data, mode) && ColumnUsable(cfg.colCode, data[cfg.file]) then
      MatchCodes(data[cfg.file].rows, cfg.colName.value,
                 if cfg.colBranch.Some? then cfg.colBranch.value else "", cfg.colCode.value, userName, mode)
    else {}
  }

  /** `codes_found` after the loop over `configs`; nothing is searched unless both a name
      and a branch code were typed. */
  function CodesFound(configs: seq<Config>, data: map<string, Table>, userName: string, branchInput: string): set<string> {
    if userName == "" || branchInput == "" then {}
    else CodesIn(configs, data, userName, ModeOf(branchInput))
  }

  /** The union of what the schemes add. */
  function CodesIn(configs: seq<Config>, data: map<string, Table>, userName: string, mode: BranchMode): set<string> {
    UnionOf(configs, ContributionOf(data, userName, mode))
  }

  function ContributionOf(data: map<string, Table>, userName: string, mode: BranchMode): Config -> set<string> {
    cfg => SchemeCodes(cfg, data, userName, mode)
  }

  /** The union of `f` over the elements of `s`, taken in order. */
  function UnionOf<T, U>(s: seq<T>, f: T -> set<U>): set<U> {
    if s == [] then {} else UnionOf(s[..|s| - 1], f) + f(s[|s| - 1])
  }

  lemma {:induction false} UnionOfMembers<T, U>(s: seq<T>, f: T -> set<U>, x: U)
    ensures x in UnionOf(s, f) <==> exists k :: 0 <= k < |s| && x in f(s[k])
  {
    if s != [] {
      var init := s[..|s| - 1];
      UnionOfMembers(init, f, x);
      if exists k :: 0 <= k < |init| && x in f(init[k]) {
        var k :| 0 <= k < |init| && x in f(init[k]);
        assert s[k] == init[k];
      }
      if exists k :: 0 <= k < |s| && x in f(s[k]) {
        var k :| 0 <= k < |s| && x in f(s[k]);
        if k < |init| {
          assert init[k] == s[k];
        }
      }
    }
  }

  /** An agent must pick one of several codes exactly when more than one was found. */
  function NeedsDisambiguation(codes: set<string>): bool {
    |codes| > 1
  }

  /** The inner loop over one table's matching rows (prize.py:924-928). */
  method MatchingCodes(rows: seq<Row>, nameCol: string, branchCol: string, codeCol: string,
                       userName: string, mode: BranchMode) returns (add: set<string>)
    ensures add == MatchCodes(rows, nameCol, branchCol, codeCol, userName, mode)
  {
    add := {};
    var j := 0;
    while j < |rows|
      invariant 0 <= j <= |rows|
      invariant add == MatchCodes(rows[..j], nameCol, branchCol, codeCol, userName, mode)
    {
      assert rows[..j + 1][..j] == rows[..j];
      var c := SafeStr(CellAt(rows[j], codeCol));
      if RowMatches(rows[j], nameCol, branchCol, userName, mode) && c != "" {
        add := add + {c};
      }
      j := j + 1;
    }
    assert rows[..j] == rows;
  }

  /** The loop of prize.py:898-928. */
  method FindCodes(configs: seq<Config>, data: map<string, Table>, userName: string, branchInput: string)
    returns (found: set<string>)
    ensures found == CodesFound(configs, data, userName, branchInput)
  {
    found := {};
    if userName == "" || branchInput == "" {
      return;
    }
    var mode := ModeOf(branchInput);
    var i := 0;
    while i < |configs|
      invariant 0 <= i <= |configs|
      invariant found == CodesIn(configs[..i], data, userName, mode)
    {
      var cfg := configs[i];
      assert configs[..i + 1][..i] == configs[..i];
      if Searched(cfg, data, mode) && ColumnUsable(cfg.colCode, data[cfg.file]) {
        var branchCol := if cfg.colBranch.Some? then cfg.colBranch.value else "";
        var add := MatchingCodes(data[cfg.file].rows, cfg.colName.value, branchCol, cfg.colCode.value, userName, mode);
        assert add == ContributionOf(data, userName, mode)(cfg);
        found := found + add;
      } else {
        assert ContributionOf(data, userName, mode)(cfg) == {};
      }
      i := i + 1;
    }
    assert configs[..i] == configs;
  }

  /** Some row of `rows` matches and has code `c`. */
  ghost predicate HasMatch(rows: seq<Row>, nameCol: string, branchCol: string, codeCol: string,
                           userName: string, mode: BranchMode, c: string) {
    exists r :: 0 <= r < |rows| && RowMatches(rows[r], nameCol, branchCol, userName, mode)
      && SafeStr(CellAt(rows[r], codeCol)) == c
  }

  lemma MatchCodesMembers(rows: seq<Row>, nameCol: string, branchCol: string, codeCol: string,
                          userName: string, mode: BranchMode, c: string)
    ensures c in MatchCodes(rows, nameCol, branchCol, codeCol, userName, mode) <==>
      c != "" && HasMatch(rows, nameCol, branchCol, codeCol, userName, mode, c)
  {
    var f := RowCodeOf(nameCol, branchCol, codeCol, userName, mode);
    UnionOfMembers(rows, f, c);
    forall k | 0 <= k < |rows|
      ensures c in f(rows[k]) <==> c != "" && RowMatches(rows[k], nameCol, branchCol, userName, mode)
                                   && SafeStr(CellAt(rows[k], codeCol)) == c
    {
    }
  }

  /** The codes found are exactly the codes some searched scheme contributes, and none is
      found for an empty name or branch code. */
  lemma CodesFoundMembers(configs: seq<Config>, data: map<string, Table>, userName: string,
                          branchInput: string, c: string)
    ensures c in CodesFound(configs, data, userName, branchInput) <==>
      userName != "" && branchInput != "" && c != ""
      && exists k :: 0 <= k < |configs| && c in SchemeCodes(configs[k], data, userName, ModeOf(branchInput))
  {
    if userName != "" && branchInput != "" {
      CodesInMembers(configs, data, userName, ModeOf(branchInput), c);
    }
  }

  lemma CodesInMembers(configs: seq<Config>, data: map<string, Table>, userName: string,
                       mode: BranchMode, c: string)
    ensures c in CodesIn(configs, data, userName, mode) <==>
      c != "" && exists k :: 0 <= k < |configs| && c in SchemeCodes(configs[k], data, userName, mode)
  {
    var f := ContributionOf(data, userName, mode);
    UnionOfMembers(configs, f, c);
    if exists k :: 0 <= k < |configs| && c in SchemeCodes(configs[k], data, userName, mode) {
      var k :| 0 <= k < |configs| && c in SchemeCodes(configs[k], data, userName, mode);
      SchemeCodesSpec(configs[k], data, userName, mode, c);
      assert c in f(configs[k]);
    }
  }

  /** What one scheme contributes: exactly the non-empty codes of its matching rows, and
      nothing from a cumulative scheme or a scheme whose needed columns are missing. */
  lemma SchemeCodesSpec(cfg: Config, data: map<string, Table>, userName: string, mode: BranchMode, c: string)
    ensures c in SchemeCodes(cfg, data, userName, mode) <==>
      Searched(cfg, data, mode) && ColumnUsable(cfg.colCode, data[cfg.file]) && c != ""
      && HasMatch(data[cfg.file].rows, cfg.colName.value, if cfg.colBranch.Some? then cfg.colBranch.value else "",
                  cfg.colCode.value, userName, mode, c)
    ensures cfg.category == Some("cumulative") ==> SchemeCodes(cfg, data, userName, mode) == {}
  {
    if Searched(cfg, data, mode) && ColumnUsable(cfg.colCode, data[cfg.file]) {
      MatchCodesMembers(data[cfg.file].rows, cfg.colName.value,
                        if cfg.colBranch.Some? then cfg.colBranch.value else "", cfg.colCode.value, userName, mode, c);
    }
  }

  /** `"0000"`, padded or not, checks the name alone; a code that is only `"지점"` (or
      blank) matches nothing; the word `지점` may be typed after the digits. */
  lemma ModeExamples()
    ensures ModeOf(" 0000 ") == NameOnly
    ensures ModeOf("지점") == NoBranch
    ensures ModeOf("12지점") == ByBranch("12")
  {
    assert " 0000 "[1..] == "0000 ";
    assert TrimLeft("0000 ") == "0000 ";
    assert "0000 "[..4] == "0000";
    assert TrimRight("0000") == "0000";
    assert "지점" <= "지점" && "지점"[2..] == "";
    assert DeleteAll("지점", "지점") == "";
    StripUnchanged("");
    assert Strip("지점") != "0000" by {
      StripUnchanged("지점");
    }
    var s := "12지점";
    assert !("지점" <= s) && s[1..] == "2지점";
    assert !("지점" <= s[1..]) && s[1..][1..] == "지점";
    assert DeleteAll(s, "지점") == "12" by {
      assert DeleteAll("지점", "지점") == "";
    }
    StripUnchanged("12지점");
    assert Strip("12지점") != "0000";
    StripUnchanged("12");
  }

  /** The code may stand after letters and before spaces: `"12"` matches `"강남12 지점"`. */
  lemma BranchExampleMatch()
    ensures BranchMatches("강남12 지점", "12")
  {
    var t := "강남12 지점";
    assert t[2..4] == "12";
    assert t[5..7] == "지점";
    assert forall m :: 4 <= m < 5 ==> IsSpace(t[m]);
    assert 4 <= 5 && 5 + 2 <= |t| && OccursAt(t, "지점", 5) && forall m :: 4 <= m < 5 ==> IsSpace(t[m]);
    assert SuffixAt(t, 4);
    assert PatternAt(t, "12", 2);
    BranchMatchesSpec(t, "12");
  }

  /** The code must not continue a longer number: `"12"` does not match `"112지점"`. */
  lemma BranchExampleNoMatch()
    ensures !BranchMatches("112지점", "12")
  {
    var u := "112지점";
    forall i ensures !PatternAt(u, "12", i) {
      if i == 1 {
        assert IsDigit(u[0]);
      } else if 0 <= i && i + 2 <= |u| {
        assert u[i..i + 2][0] == u[i] && u[i..i + 2][1] == u[i + 1];
        assert u[i] != '1' || u[i + 1] != '2';
      }
    }
    BranchMatchesSpec(u, "12");
  }
}
