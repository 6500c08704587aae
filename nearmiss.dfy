/** The manager view's near-miss folders (prize.py:498-616): the agents under one manager
    are collected from the tables, each agent's records are classified into four fixed
    value bands, every band counts its agents once, and one band's agents are listed
    with their values, highest first. */
module NearMiss {
  import opened TextUtil
  import opened NumText
  import opened Codes
  import opened Engine
  import opened Sorting

  /** A near-miss folder: agents whose value lies in `[lo, hi)` are working towards `target`. */
  datatype Band = Band(target: int, lo: real, hi: real)

  /** The `ranges` dictionary of prize.py:515-520, in its insertion order. */
  const Bands: seq<Band> := [Band(500000, 300000.0, 500000.0), Band(300000, 200000.0, 300000.0),
                             Band(200000, 100000.0, 200000.0), Band(100000, 0.0, 100000.0)]

  /** The keys of `counts` (prize.py:521). */
  const Targets: set<int> := {500000, 300000, 200000, 100000}

  /** `min_v <= val < max_v`. */
  predicate InBand(b: Band, v: real) {
    b.lo <= v < b.hi
  }

  /** The first band, in the given order, holding `v`. */
  function FirstBand(bands: seq<Band>, v: real): Option<Band> {
    if bands == [] then None
    else if InBand(bands[0], v) then Some(bands[0])
    else FirstBand(bands[1..], v)
  }

  /** The band the loop of prize.py:537-540 picks for `v`. */
  function BandOf(v: real): Option<Band> {
    FirstBand(Bands, v)
  }

  /** The bands are pairwise disjoint, so a value lies in at most one of them. */
  lemma BandsDisjoint(v: real)
    ensures forall i, j :: 0 <= i < j < |Bands| && InBand(Bands[i], v) ==> !InBand(Bands[j], v)
  {
  }

  /** The first band holding `v` is a band holding `v`; there is none exactly when no
      band holds `v`. */
  lemma {:induction false} FirstBandSpec(bands: seq<Band>, v: real)
    ensures FirstBand(bands, v).None? <==> forall b :: b in bands ==> !InBand(b, v)
    ensures FirstBand(bands, v).Some? ==> FirstBand(bands, v).value in bands && InBand(FirstBand(bands, v).value, v)
  {
    if bands != [] {
      FirstBandSpec(bands[1..], v);
      assert bands == [bands[0]] + bands[1..];
    }
  }

  /** A value gets a band exactly when `0 <= v < 500000`; the band holds `v`, is the only
      band that does, and its target is one of the keys of `counts`. */
  lemma BandOfSpec(v: real)
    ensures BandOf(v).Some? <==> 0.0 <= v < 500000.0
    ensures BandOf(v).Some? ==>
      var b := BandOf(v).value;
      b in Bands && InBand(b, v) && b.target in Targets
      && forall b' :: b' in Bands && InBand(b', v) ==> b' == b
  {
    FirstBandSpec(Bands, v);
    if 0.0 <= v < 500000.0 {
      if v >= 300000.0 { assert InBand(Bands[0], v); }
      else if v >= 200000.0 { assert InBand(Bands[1], v); }
      else if v >= 100000.0 { assert InBand(Bands[2], v); }
      else { assert InBand(Bands[3], v); }
    }
  }

  /** Each band is the only one with its target. */
  lemma BandTargetsDistinct(b: Band, b': Band)
    requires b in Bands && b' in Bands && b.target == b'.target
    ensures b == b'
  {
  }

  /** The `for t, (min_v, max_v) in ranges.items(): ... break` loop of prize.py:537-540. */
  method FindBand(v: real) returns (r: Option<Band>)
    ensures r == BandOf(v)
  {
    var i := 0;
    while i < |Bands|
      invariant 0 <= i <= |Bands|
      invariant FirstBand(Bands[i..], v) == BandOf(v)
    {
      if InBand(Bands[i], v) {
        return Some(Bands[i]);
      }
      assert Bands[i..][1..] == Bands[i + 1..];
      i := i + 1;
    }
    r := None;
  }

  // ---------------------------------------------------------------------------
  // Which records a folder view looks at

  /** The three `continue` tests of prize.py:530-532 (and 601-603), negated: the record
      is looked at for folder category `cat`. */
  predicate Selected(cat: string, r: PerfResult) {
    !(cat == "구간" && r.TypeLabel() != "구간")
    && !(cat == "브릿지" && !HasSubstring(r.TypeLabel(), "브릿지"))
    && r.Category() != "cumulative"
  }

  /** `res.get('val')` for the 구간 and 브릿지2 records, `res.get('val_curr')` otherwise,
      `None` read as 0 (prize.py:534-535). */
  function ReportValue(r: PerfResult): real {
    match r
    case Flat(_, _, val, _, _, _, _, _) => val
    case Bridge2(_, _, val, _, _, _, _, _, _) => val
    case Bridge1(_, _, _, _, valCurr, _, _, _, _) => valCurr
    case Cumulative(_, _, _, _) => 0.0
  }

  /** The 구간 folders look at flat tier records only, the 브릿지 folders at both bridge
      kinds, and no folder at cumulative records. */
  lemma SelectedSpec(cat: string, r: PerfResult)
    ensures cat == "구간" ==> (Selected(cat, r) <==> r.Flat?)
    ensures cat == "브릿지" ==> (Selected(cat, r) <==> r.Bridge1? || r.Bridge2?)
    ensures cat != "구간" && cat != "브릿지" ==> (Selected(cat, r) <==> !r.Cumulative?)
  {
    assert HasSubstring("브릿지1", "브릿지") by { assert "브릿지" <= "브릿지1"; }
    assert HasSubstring("브릿지2", "브릿지") by { assert "브릿지" <= "브릿지2"; }
    NotSubstringByChar("구간", "브릿지", '브');
  }


  // ---------------------------------------------------------------------------
  // The count step (prize.py:523-543)

  /** `matched_folders` after the loop over one agent's records: the targets of the bands
      the selected records fall in. */
  function Folders(cat: string, results: seq<PerfResult>): set<int> {
    if results == [] then {}
    else
      var r := results[|results| - 1];
      var b := BandOf(ReportValue(r));
      Folders(cat, results[..|results| - 1]) + (if Selected(cat, r) && b.Some? then {b.value.target} else {})
  }

  /** A target is in the folder set exactly when one of the selected records falls in its
      band, and every folder is a key of `counts`. */
  lemma {:induction false} FoldersSpec(cat: string, results: seq<PerfResult>, t: int)
    ensures t in Folders(cat, results) <==>
      exists k :: 0 <= k < |results| && Selected(cat, results[k])
                  && BandOf(ReportValue(results[k])).Some? && BandOf(ReportValue(results[k])).value.target == t
    ensures Folders(cat, results) <= Targets
  {
    if results != [] {
      var init := results[..|results| - 1];
      FoldersSpec(cat, init, t);
      BandOfSpec(ReportValue(results[|results| - 1]));
      assert forall k :: 0 <= k < |init| ==> init[k] == results[k];
    }
  }

  /** The folder set of one agent: the folder set of `calculate_agent_performance(code)`. */
  function AgentFolders(cat: string, configs: seq<Config>, data: map<string, Table>, code: string): set<int> {
    Folders(cat, Aggregate(configs, data, code))
  }

  /** How many entries of `s` satisfy `p`. */
  function CountWhere<T>(s: seq<T>, p: T -> bool): nat {
    if s == [] then 0
    else CountWhere(s[..|s| - 1], p) + (if p(s[|s| - 1]) then 1 else 0)
  }

  /** `counts[t]` after the loop over `agents`: how many of them have `t` in their folder set. */
  function CountWith(cat: string, configs: seq<Config>, data: map<string, Table>, agents: seq<string>, t: int): nat {
    CountWhere(agents, HasFolder(cat, configs, data, t))
  }

  /** The test "agent `a` has folder `t`", as a function value. */
  function HasFolder(cat: string, configs: seq<Config>, data: map<string, Table>, t: int): string -> bool {
    a => t in AgentFolders(cat, configs, data, a)
  }

  /** No two entries are equal (the keys of a dictionary). */
  predicate Distinct<T(==)>(s: seq<T>) {
    forall i, j :: 0 <= i < j < |s| ==> s[i] != s[j]
  }

  /** The entries of `s` satisfying `p`, as a set. */
  function Where<T>(s: seq<T>, p: T -> bool): set<T> {
    set a | a in s && p(a)
  }

  /** Over distinct entries, the count is the number of distinct entries satisfying `p`. */
  lemma {:induction false} CountWhereCard<T>(s: seq<T>, p: T -> bool)
    requires Distinct(s)
    ensures CountWhere(s, p) == |Where(s, p)|
    ensures CountWhere(s, p) <= |s|
  {
    if s != [] {
      var init, last := s[..|s| - 1], s[|s| - 1];
      CountWhereCard(init, p);
      assert last !in init by {
        forall k | 0 <= k < |init| ensures init[k] != last {
          assert init[k] == s[k];
        }
      }
      assert s == init + [last];
      if p(last) {
        assert Where(s, p) == Where(init, p) + {last};
      } else {
        assert Where(s, p) == Where(init, p);
      }
    }
  }

  /** The agents among `agents` that have folder `t`. */
  function AgentsWith(cat: string, configs: seq<Config>, data: map<string, Table>, agents: seq<string>, t: int): set<string> {
    set a | a in agents && t in AgentFolders(cat, configs, data, a)
  }

  /** Each agent is counted once per band however many of its schemes fall in it: over
      distinct agents, a band's count is the number of agents having that folder, and
      never more than the number of agents. */
  lemma CountIsAgents(cat: string, configs: seq<Config>, data: map<string, Table>,
                      agents: seq<string>, t: int)
    requires Distinct(agents)
    ensures CountWith(cat, configs, data, agents, t) == |AgentsWith(cat, configs, data, agents, t)|
    ensures CountWith(cat, configs, data, agents, t) <= |agents|
  {
    var p := HasFolder(cat, configs, data, t);
    CountWhereCard(agents, p);
    assert Where(agents, p) == AgentsWith(cat, configs, data, agents, t);
  }

  /** The loop of prize.py:529-540 over one agent's records, building `matched_folders`. */
  method MatchedFolders(cat: string, results: seq<PerfResult>) returns (matched: set<int>)
    ensures matched == Folders(cat, results)
  {
    matched := {};
    var j := 0;
    while j < |results|
      invariant 0 <= j <= |results|
      invariant matched == Folders(cat, results[..j])
    {
      var res := results[j];
      if Selected(cat, res) {
        var b := FindBand(ReportValue(res));
        if b.Some? {
          matched := matched + {b.value.target};
        }
      }
      assert results[..j + 1][..j] == results[..j];
      j := j + 1;
    }
    assert results[..j] == results;
  }

  /** Picks an element of a non-empty set (the order of set iteration is not modelled). */
  method Choose<T>(s: set<T>) returns (x: T)
    requires s != {}
    ensures x in s
  {
    x :| x in s;
  }

  /** `for t in matched_folders: counts[t] += 1` (prize.py:542-543). */
  method AddOne(counts: map<int, nat>, matched: set<int>) returns (r: map<int, nat>)
    requires matched <= counts.Keys
    ensures r.Keys == counts.Keys
    ensures forall t :: t in counts ==> r[t] == counts[t] + (if t in matched then 1 else 0)
  {
    r := counts;
    var rest := matched;
    while rest != {}
      invariant rest <= matched
      invariant r.Keys == counts.Keys
      invariant forall t :: t in counts ==> r[t] == counts[t] + (if t in matched - rest then 1 else 0)
      decreases |rest|
    {
      var t := Choose(rest);
      r := r[t := r[t] + 1];
      rest := rest - {t};
    }
  }

  /** The count step: `counts` starts at 0 for every band, each agent's selected records
      are classified into a set of folders, and every folder of the set adds one to its
      band's count. */
  method CountNearMiss(cat: string, configs: seq<Config>, data: map<string, Table>, agents: seq<string>)
    returns (counts: map<int, nat>)
    ensures counts.Keys == Targets
    ensures forall t :: t in Targets ==> counts[t] == CountWith(cat, configs, data, agents, t)
  {
    counts := map[500000 := 0, 300000 := 0, 200000 := 0, 100000 := 0];
    var i := 0;
    while i < |agents|
      invariant 0 <= i <= |agents|
      invariant counts.Keys == Targets
      invariant forall t :: t in Targets ==> counts[t] == CountWith(cat, configs, data, agents[..i], t)
    {
      var matched := AgentFolderSet(cat, configs, data, agents[i]);
      counts := AddOne(counts, matched);
      forall t | t in Targets
        ensures counts[t] == CountWith(cat, configs, data, agents[..i + 1], t)
      {
        CountWithStep(cat, configs, data, agents, i, t);
      }
      i := i + 1;
    }
    assert agents[..i] == agents;
  }

  /** The folder set of one agent, from its performance records. */
  method AgentFolderSet(cat: string, configs: seq<Config>, data: map<string, Table>, code: string)
    returns (matched: set<int>)
    ensures matched == AgentFolders(cat, configs, data, code)
    ensures matched <= Targets
  {
    var results, _ := CalculateAgentPerformance(configs, data, code);
    matched := MatchedFolders(cat, results);
    FoldersSpec(cat, results, 0);
  }

  /** One more agent adds one to the count of each of its folders. */
  lemma CountWithStep(cat: string, configs: seq<Config>, data: map<string, Table>, agents: seq<string>, i: int, t: int)
    requires 0 <= i < |agents|
    ensures CountWith(cat, configs, data, agents[..i + 1], t)
      == CountWith(cat, configs, data, agents[..i], t) + (if t in AgentFolders(cat, configs, data, agents[i]) then 1 else 0)
  {
    var p := HasFolder(cat, configs, data, t);
    assert agents[..i + 1][..i] == agents[..i];
    assert agents[..i + 1][i] == agents[i];
    assert p(agents[i]) == (t in AgentFolders(cat, configs, data, agents[i]));
  }

  // ---------------------------------------------------------------------------
  // Collecting the agents of a manager (prize.py:499-513)

  /** A column setting that is set, non-empty and a column of the table. */
  predicate ColumnUsable(col: Option<string>, df: Table) {
    col.Some? && col.value != "" && col.value in df.columns
  }

  /** The scheme's table exists and has both its manager column and its code column. */
  predicate Contributes(cfg: Config, data: map<string, Table>) {
    cfg.file in data && ColumnUsable(cfg.colManager, data[cfg.file]) && ColumnUsable(cfg.colCode, data[cfg.file])
  }

  /** The row belongs to the manager: `safe_str` of its manager cell equals `safe_str`
      of the entered manager code. */
  predicate ManagedRow(row: Row, mgrCol: string, mgr: string) {
    SafeStr(CellAt(row, mgrCol)) == SafeStr(Text(mgr))
  }

  /** Adds a key to a dictionary kept as its key sequence: a new non-empty key goes at the
      end, an existing key keeps its place (`if code: agents[code] = True`). */
  function AddCode(acc: seq<string>, c: string): seq<string> {
    if c != "" && c !in acc then acc + [c] else acc
  }

  /** The codes of the managed rows among `rows`, added in order. */
  function AddRowCodes(acc: seq<string>, rows: seq<Row>, mgrCol: string, codeCol: string, mgr: string): seq<string> {
    if rows == [] then acc
    else
      var row := rows[|rows| - 1];
      var acc' := AddRowCodes(acc, rows[..|rows| - 1], mgrCol, codeCol, mgr);
      if ManagedRow(row, mgrCol, mgr) then AddCode(acc', SafeStr(CellAt(row, codeCol))) else acc'
  }

  /** `agents` after the loop over `configs` in the count step. */
  function AgentCodes(configs: seq<Config>, data: map<string, Table>, mgr: string): seq<string> {
    if configs == [] then []
    else
      var cfg := configs[|configs| - 1];
      var acc := AgentCodes(configs[..|configs| - 1], data, mgr);
      if Contributes(cfg, data)
      then AddRowCodes(acc, data[cfg.file].rows, cfg.colManager.value, cfg.colCode.value, mgr)
      else acc
  }

  /** Some entry of `s` satisfies `p`. */
  ghost predicate Any<T>(s: seq<T>, p: T -> bool) {
    exists i :: 0 <= i < |s| && p(s[i])
  }

  /** An entry satisfying `p` is in the prefix or is the last entry. */
  lemma AnyLast<T>(s: seq<T>, p: T -> bool)
    requires s != []
    ensures Any(s, p) <==> Any(s[..|s| - 1], p) || p(s[|s| - 1])
  {
    var init := s[..|s| - 1];
    if Any(s, p) {
      var i :| 0 <= i < |s| && p(s[i]);
      if i < |init| {
        assert init[i] == s[i];
      }
    }
    if Any(init, p) {
      var i :| 0 <= i < |init| && p(init[i]);
      assert s[i] == init[i];
    }
  }

  /** The test "the row belongs to the manager and has code `c`", as a function value. */
  function RowIs(mgrCol: string, codeCol: string, mgr: string, c: string): Row -> bool {
    row => ManagedRow(row, mgrCol, mgr) && SafeStr(CellAt(row, codeCol)) == c
  }

  /** A row of `rows` that belongs to the manager and has code `c`. */
  ghost predicate HasManagedRow(rows: seq<Row>, mgrCol: string, codeCol: string, mgr: string, c: string) {
    Any(rows, RowIs(mgrCol, codeCol, mgr, c))
  }

  /** Some contributing scheme has a row of the manager with code `c`. */
  ghost predicate ManagedCode(configs: seq<Config>, data: map<string, Table>, mgr: string, c: string) {
    exists k :: 0 <= k < |configs| && Contributes(configs[k], data)
      && HasManagedRow(data[configs[k].file].rows, configs[k].colManager.value, configs[k].colCode.value, mgr, c)
  }

  /** `AddCode` adds `c` when it is non-empty, and nothing else. */
  lemma AddCodeMembers(acc: seq<string>, c: string, x: string)
    ensures x in AddCode(acc, c) <==> x in acc || (c != "" && x == c)
  {
  }

  /** Adding row codes keeps what was there in place and never repeats or adds an empty code. */
  lemma {:induction false} AddRowCodesKeeps(acc: seq<string>, rows: seq<Row>, mgrCol: string, codeCol: string,
                                            mgr: string)
    requires Distinct(acc) && "" !in acc
    ensures var r := AddRowCodes(acc, rows, mgrCol, codeCol, mgr);
      Distinct(r) && "" !in r && acc <= r
  {
    if rows != [] {
      AddRowCodesKeeps(acc, rows[..|rows| - 1], mgrCol, codeCol, mgr);
    }
  }

  /** Adding row codes adds exactly the non-empty codes of the managed rows. */
  lemma {:induction false} AddRowCodesMembers(acc: seq<string>, rows: seq<Row>, mgrCol: string, codeCol: string,
                                              mgr: string, c: string)
    ensures c in AddRowCodes(acc, rows, mgrCol, codeCol, mgr) <==>
      c in acc || (c != "" && HasManagedRow(rows, mgrCol, codeCol, mgr, c))
  {
    if rows != [] {
      var init, last := rows[..|rows| - 1], rows[|rows| - 1];
      AddRowCodesMembers(acc, init, mgrCol, codeCol, mgr, c);
      AnyLast(rows, RowIs(mgrCol, codeCol, mgr, c));
      var prev := AddRowCodes(acc, init, mgrCol, codeCol, mgr);
      if ManagedRow(last, mgrCol, mgr) {
        AddCodeMembers(prev, SafeStr(CellAt(last, codeCol)), c);
      }
    }
  }

  /** The collected agents are distinct non-empty codes. */
  lemma {:induction false} AgentCodesDistinct(configs: seq<Config>, data: map<string, Table>, mgr: string)
    ensures Distinct(AgentCodes(configs, data, mgr)) && "" !in AgentCodes(configs, data, mgr)
  {
    if configs != [] {
      var init, cfg := configs[..|configs| - 1], configs[|configs| - 1];
      AgentCodesDistinct(init, data, mgr);
      if Contributes(cfg, data) {
        AddRowCodesKeeps(AgentCodes(init, data, mgr), data[cfg.file].rows, cfg.colManager.value, cfg.colCode.value, mgr);
      }
    }
  }

  /** A code is collected exactly when it is the non-empty code of a row of the manager
      in a scheme whose manager and code columns exist. */
  lemma {:induction false} AgentCodesMembers(configs: seq<Config>, data: map<string, Table>, mgr: string, c: string)
    ensures c in AgentCodes(configs, data, mgr) <==> c != "" && ManagedCode(configs, data, mgr, c)
  {
    if configs != [] {
      var init, cfg := configs[..|configs| - 1], configs[|configs| - 1];
      AgentCodesMembers(init, data, mgr, c);
      assert forall k :: 0 <= k < |init| ==> init[k] == configs[k];
      if Contributes(cfg, data) {
        AddRowCodesMembers(AgentCodes(init, data, mgr), data[cfg.file].rows, cfg.colManager.value, cfg.colCode.value, mgr, c);
      }
      if ManagedCode(configs, data, mgr, c) && !ManagedCode(init, data, mgr, c) {
        var k :| 0 <= k < |configs| && Contributes(configs[k], data)
          && HasManagedRow(data[configs[k].file].rows, configs[k].colManager.value, configs[k].colCode.value, mgr, c);
        assert k == |configs| - 1;
      }
    }
  }

  /** The nested loops of prize.py:500-513. */
  method CollectAgentCodes(configs: seq<Config>, data: map<string, Table>, mgr: string)
    returns (agents: seq<string>)
    ensures agents == AgentCodes(configs, data, mgr)
  {
    agents := [];
    var key := SafeStr(Text(mgr));
    var i := 0;
    while i < |configs|
      invariant 0 <= i <= |configs|
      invariant agents == AgentCodes(configs[..i], data, mgr)
    {
      var cfg := configs[i];
      assert configs[..i + 1][..i] == configs[..i];
      if Contributes(cfg, data) {
        var rows := data[cfg.file].rows;
        var mgrCol, codeCol := cfg.colManager.value, cfg.colCode.value;
        var base := agents;
        var j := 0;
        while j < |rows|
          invariant 0 <= j <= |rows|
          invariant agents == AddRowCodes(base, rows[..j], mgrCol, codeCol, mgr)
        {
          if SafeStr(CellAt(rows[j], mgrCol)) == key {
            var code := SafeStr(CellAt(rows[j], codeCol));
            if code != "" && code !in agents {
              agents := agents + [code];
            }
          }
          assert rows[..j + 1][..j] == rows[..j];
          j := j + 1;
        }
        assert rows[..j] == rows;
      }
      i := i + 1;
    }
    assert configs[..i] == configs;
  }

  // ---------------------------------------------------------------------------
  // The list step (prize.py:571-616)

  /** The value the list step stores under an agent code, with the code itself. */
  datatype AgentInfo = AgentInfo(code: string, name: string, agency: string)

  /** What the list step reads from one row (prize.py:584-588): the code; the name, or
      "이름없음" when the scheme has no name column; the agency, falling back to the
      branch when it is empty. */
  function RowInfo(cfg: Config, df: Table, row: Row): AgentInfo
    requires cfg.colCode.Some?
  {
    var name := if ColumnUsable(cfg.colName, df) then SafeStr(CellAt(row, cfg.colName.value)) else "이름없음";
    var agency := if ColumnUsable(cfg.colAgency, df) then SafeStr(CellAt(row, cfg.colAgency.value)) else "";
    var agency' := if agency == "" && ColumnUsable(cfg.colBranch, df)
                   then SafeStr(CellAt(row, cfg.colBranch.value)) else agency;
    AgentInfo(SafeStr(CellAt(row, cfg.colCode.value)), name, agency')
  }

  /** The keys of the dictionary, in insertion order. */
  function CodesOf(infos: seq<AgentInfo>): (r: seq<string>)
    ensures |r| == |infos|
  {
    if infos == [] then [] else CodesOf(infos[..|infos| - 1]) + [infos[|infos| - 1].code]
  }

  /** `CodesOf` lists the codes of the entries position by position. */
  lemma {:induction false} CodesOfAt(infos: seq<AgentInfo>, k: int)
    requires 0 <= k < |infos|
    ensures CodesOf(infos)[k] == infos[k].code
  {
    if k < |infos| - 1 {
      CodesOfAt(infos[..|infos| - 1], k);
    }
  }

  /** The position of the entry for `c`. */
  function IndexOfCode(infos: seq<AgentInfo>, c: string): (r: Option<nat>)
    ensures r.None? <==> forall k :: 0 <= k < |infos| ==> infos[k].code != c
    ensures r.Some? ==> r.value < |infos| && infos[r.value].code == c
  {
    if infos == [] then None
    else if infos[|infos| - 1].code == c then Some(|infos| - 1)
    else IndexOfCode(infos[..|infos| - 1], c)
  }

  /** `if code and name: agents[code] = info`: a new code goes at the end, an existing
      code keeps its place and takes the new name and agency. */
  function Upsert(acc: seq<AgentInfo>, info: AgentInfo): seq<AgentInfo> {
    if info.code == "" || info.name == "" then acc
    else
      match IndexOfCode(acc, info.code)
      case None => acc + [info]
      case Some(k) => acc[k := info]
  }

  /** The dictionary is well formed: distinct codes, every code and name non-empty. */
  ghost predicate InfosValid(infos: seq<AgentInfo>) {
    (forall i, j :: 0 <= i < j < |infos| ==> infos[i].code != infos[j].code)
    && forall k :: 0 <= k < |infos| ==> infos[k].code != "" && infos[k].name != ""
  }

  /** `Upsert` keeps the dictionary well formed and keeps every code in its place; the new
      code is present afterwards, carrying the new row's name and agency, at most one
      entry is added, and the entries of the other codes are untouched. */
  lemma UpsertSpec(acc: seq<AgentInfo>, info: AgentInfo, c: string)
    requires InfosValid(acc)
    ensures var r := Upsert(acc, info);
      InfosValid(r) && |acc| <= |r| <= |acc| + 1
      && (forall k :: 0 <= k < |acc| ==> r[k].code == acc[k].code)
      && (forall k :: 0 <= k < |acc| && acc[k].code != info.code ==> r[k] == acc[k])
      && (info.code != "" && info.name != "" ==> info in r)
      && ((exists k :: 0 <= k < |r| && r[k].code == c) <==>
            (exists k :: 0 <= k < |acc| && acc[k].code == c) || (info.code != "" && info.name != "" && c == info.code))
  {
    var r := Upsert(acc, info);
    if info.code != "" && info.name != "" {
      match IndexOfCode(acc, info.code)
      case None =>
        assert r[|acc|] == info;
      case Some(k) =>
        assert r[k] == info;
    }
  }

  /** The list step's entries for the managed rows among `rows`, in order. */
  function AddRowInfos(acc: seq<AgentInfo>, cfg: Config, df: Table, rows: seq<Row>, mgr: string): seq<AgentInfo>
    requires cfg.colCode.Some? && cfg.colManager.Some?
  {
    if rows == [] then acc
    else
      var row := rows[|rows| - 1];
      var prev := AddRowInfos(acc, cfg, df, rows[..|rows| - 1], mgr);
      if ManagedRow(row, cfg.colManager.value, mgr) then Upsert(prev, RowInfo(cfg, df, row)) else prev
  }

  /** The list step's `agents` dictionary after the loop over `configs` (prize.py:569-589). */
  function AgentInfos(configs: seq<Config>, data: map<string, Table>, mgr: string): seq<AgentInfo> {
    if configs == [] then []
    else
      var cfg := configs[|configs| - 1];
      var acc := AgentInfos(configs[..|configs| - 1], data, mgr);
      if Contributes(cfg, data) then AddRowInfos(acc, cfg, data[cfg.file], data[cfg.file].rows, mgr) else acc
  }

  /** Adding rows keeps the dictionary well formed and adds only codes of managed rows. */
  lemma {:induction false} AddRowInfosSpec(acc: seq<AgentInfo>, cfg: Config, df: Table, rows: seq<Row>,
                                           mgr: string, c: string)
    requires cfg.colCode.Some? && cfg.colManager.Some?
    requires InfosValid(acc)
    ensures var r := AddRowInfos(acc, cfg, df, rows, mgr);
      InfosValid(r)
      && ((exists k :: 0 <= k < |r| && r[k].code == c) ==>
            (exists k :: 0 <= k < |acc| && acc[k].code == c)
            || HasManagedRow(rows, cfg.colManager.value, cfg.colCode.value, mgr, c))
  {
    if rows != [] {
      var init, last := rows[..|rows| - 1], rows[|rows| - 1];
      AddRowInfosSpec(acc, cfg, df, init, mgr, c);
      AnyLast(rows, RowIs(cfg.colManager.value, cfg.colCode.value, mgr, c));
      var prev := AddRowInfos(acc, cfg, df, init, mgr);
      if ManagedRow(last, cfg.colManager.value, mgr) {
        UpsertSpec(prev, RowInfo(cfg, df, last), c);
      }
    }
  }

  /** The list step's dictionary is well formed, and every agent it lists is one the count
      step counted. The converse fails: the count step also takes codes whose row has an
      empty name. */
  lemma {:induction false} AgentInfosSpec(configs: seq<Config>, data: map<string, Table>, mgr: string, c: string)
    ensures InfosValid(AgentInfos(configs, data, mgr))
    ensures c in CodesOf(AgentInfos(configs, data, mgr)) ==> c in AgentCodes(configs, data, mgr)
  {
    InfosManaged(configs, data, mgr, c);
    AgentCodesMembers(configs, data, mgr, c);
    var infos := AgentInfos(configs, data, mgr);
    if c in CodesOf(infos) {
      var k :| 0 <= k < |infos| && CodesOf(infos)[k] == c;
      CodesOfAt(infos, k);
      assert infos[k].code == c;
      assert c != "" && ManagedCode(configs, data, mgr, c);
    }
  }

  /** Every code of the list step's dictionary is a non-empty code of a row of the manager. */
  lemma {:induction false} InfosManaged(configs: seq<Config>, data: map<string, Table>, mgr: string, c: string)
    ensures InfosValid(AgentInfos(configs, data, mgr))
    ensures (exists k :: 0 <= k < |AgentInfos(configs, data, mgr)| && AgentInfos(configs, data, mgr)[k].code == c)
            ==> c != "" && ManagedCode(configs, data, mgr, c)
  {
    if configs != [] {
      var init, cfg := configs[..|configs| - 1], configs[|configs| - 1];
      InfosManaged(init, data, mgr, c);
      var acc := AgentInfos(init, data, mgr);
      var infos := AgentInfos(configs, data, mgr);
      if ManagedCode(init, data, mgr, c) {
        var k :| 0 <= k < |init| && Contributes(init[k], data)
          && HasManagedRow(data[init[k].file].rows, init[k].colManager.value, init[k].colCode.value, mgr, c);
        assert configs[k] == init[k];
        assert ManagedCode(configs, data, mgr, c);
      }
      if Contributes(cfg, data) {
        var rows := data[cfg.file].rows;
        AddRowInfosSpec(acc, cfg, data[cfg.file], rows, mgr, c);
        assert infos == AddRowInfos(acc, cfg, data[cfg.file], rows, mgr);
        if HasManagedRow(rows, cfg.colManager.value, cfg.colCode.value, mgr, c) {
          assert configs[|configs| - 1] == cfg;
          assert ManagedCode(configs, data, mgr, c);
        }
        if exists k :: 0 <= k < |infos| && infos[k].code == c {
          var k :| 0 <= k < |infos| && infos[k].code == c;
          assert c != "";
        }
      } else {
        assert infos == acc;
        if exists k :: 0 <= k < |infos| && infos[k].code == c {
          var k :| 0 <= k < |infos| && infos[k].code == c;
          assert acc[k].code == c;
        }
      }
    }
  }

  /** The entry stored under `c`, if any (`agents.get(c)`). */
  function Lookup(infos: seq<AgentInfo>, c: string): (r: Option<AgentInfo>)
    ensures r.None? <==> forall k :: 0 <= k < |infos| ==> infos[k].code != c
    ensures r.Some? ==> r.value in infos && r.value.code == c
  {
    match IndexOfCode(infos, c)
    case None => None
    case Some(k) => Some(infos[k])
  }

  /** With distinct codes, the entry found for `c` is the one at any index holding `c`. */
  lemma LookupAt(infos: seq<AgentInfo>, c: string, j: int)
    requires InfosValid(infos) && 0 <= j < |infos| && infos[j].code == c
    ensures Lookup(infos, c) == Some(infos[j])
  {
    var k := IndexOfCode(infos, c).value;
    assert infos[k].code == infos[j].code;
  }

  /** After an assignment, the entry of its own code is the new one and every other entry
      is as before. */
  lemma UpsertLookup(acc: seq<AgentInfo>, info: AgentInfo, c: string)
    requires InfosValid(acc)
    ensures Lookup(Upsert(acc, info), c) ==
      if info.code == c && c != "" && info.name != "" then Some(info) else Lookup(acc, c)
  {
    var r := Upsert(acc, info);
    UpsertSpec(acc, info, c);
    if info.code == c && c != "" && info.name != "" {
      var j :| 0 <= j < |r| && r[j] == info;
      LookupAt(r, c, j);
    } else if Lookup(acc, c).Some? {
      var j :| 0 <= j < |acc| && acc[j] == Lookup(acc, c).value;
      LookupAt(acc, c, j);
      assert acc[j].code != info.code || info.code == "" || info.name == "";
      LookupAt(r, c, j);
    } else if exists k :: 0 <= k < |r| && r[k].code == c {
      assert false;
    }
  }

  /** A row of `cfg`'s table that the list step stores under `c`: it belongs to the
      manager, its code is `c`, and its name is non-empty. */
  predicate NamedRow(cfg: Config, df: Table, row: Row, mgr: string, c: string)
    requires cfg.colCode.Some? && cfg.colManager.Some?
  {
    ManagedRow(row, cfg.colManager.value, mgr) && c != ""
    && RowInfo(cfg, df, row).code == c && RowInfo(cfg, df, row).name != ""
  }

  /** Adding rows stores `c` exactly when some row that is a `NamedRow` for `c` holds it,
      and then the entry is that of the last such row; without such a row the entry of
      `c` is as before. */
  lemma {:induction false} AddRowInfosLookup(acc: seq<AgentInfo>, cfg: Config, df: Table, rows: seq<Row>,
                                             mgr: string, c: string)
    requires cfg.colCode.Some? && cfg.colManager.Some?
    requires InfosValid(acc)
    ensures LastWins(rows, IsNamed(cfg, df, mgr, c), StoredInfo(cfg, df), Lookup(acc, c),
                     Lookup(AddRowInfos(acc, cfg, df, rows, mgr), c))
  {
    if rows != [] {
      var init := rows[..|rows| - 1];
      AddRowInfosLookup(acc, cfg, df, init, mgr, c);
      AddRowInfosLast(acc, cfg, df, rows, mgr, c);
      var r := Lookup(AddRowInfos(acc, cfg, df, rows, mgr), c);
      if NamedRow(cfg, df, rows[|rows| - 1], mgr, c) {
        LastWinsHit(rows, IsNamed(cfg, df, mgr, c), StoredInfo(cfg, df), Lookup(acc, c));
      } else {
        LastWinsSkip(rows, IsNamed(cfg, df, mgr, c), StoredInfo(cfg, df), Lookup(acc, c), r);
      }
    }
  }

  /** The last row decides: if it is a `NamedRow` for `c` its entry is stored, otherwise
      the entry of `c` is the one before it. */
  lemma AddRowInfosLast(acc: seq<AgentInfo>, cfg: Config, df: Table, rows: seq<Row>, mgr: string, c: string)
    requires cfg.colCode.Some? && cfg.colManager.Some?
    requires InfosValid(acc) && rows != []
    ensures var last := rows[|rows| - 1];
      Lookup(AddRowInfos(acc, cfg, df, rows, mgr), c) ==
      if NamedRow(cfg, df, last, mgr, c) then Some(RowInfo(cfg, df, last))
      else Lookup(AddRowInfos(acc, cfg, df, rows[..|rows| - 1], mgr), c)
  {
    var init, last := rows[..|rows| - 1], rows[|rows| - 1];
    var prev := AddRowInfos(acc, cfg, df, init, mgr);
    AddRowInfosSpec(acc, cfg, df, init, mgr, c);
    if ManagedRow(last, cfg.colManager.value, mgr) {
      UpsertLookup(prev, RowInfo(cfg, df, last), c);
    }
  }

  /** `r` is what a sequence of writes leaves: `f` of the last entry satisfying `p`, or
      `base` when no entry does. */
  ghost predicate LastWins<T, V>(s: seq<T>, p: T -> bool, f: T -> V, base: V, r: V) {
    ((forall i :: 0 <= i < |s| ==> !p(s[i])) ==> r == base)
    && ((exists i :: 0 <= i < |s| && p(s[i])) ==>
          exists i :: 0 <= i < |s| && p(s[i]) && (forall i' :: i < i' < |s| ==> !p(s[i'])) && r == f(s[i]))
  }

  /** A last entry that does not satisfy `p` changes nothing. */
  lemma LastWinsSkip<T, V>(s: seq<T>, p: T -> bool, f: T -> V, base: V, r: V)
    requires s != [] && !p(s[|s| - 1])
    requires LastWins(s[..|s| - 1], p, f, base, r)
    ensures LastWins(s, p, f, base, r)
  {
    var init := s[..|s| - 1];
    if exists i :: 0 <= i < |s| && p(s[i]) {
      var i0 :| 0 <= i0 < |s| && p(s[i0]);
      assert init[i0] == s[i0];
      var i :| 0 <= i < |init| && p(init[i]) && (forall i' :: i < i' < |init| ==> !p(init[i'])) && r == f(init[i]);
      assert s[i] == init[i];
      forall i' | i < i' < |s| ensures !p(s[i']) {
        if i' < |init| { assert s[i'] == init[i']; }
      }
    } else {
      forall i | 0 <= i < |init| ensures !p(init[i]) {
        assert init[i] == s[i];
      }
    }
  }

  /** A last entry that satisfies `p` wins. */
  lemma LastWinsHit<T, V>(s: seq<T>, p: T -> bool, f: T -> V, base: V)
    requires s != [] && p(s[|s| - 1])
    ensures LastWins(s, p, f, base, f(s[|s| - 1]))
  {
  }

  /** `NamedRow` as a function value. */
  function IsNamed(cfg: Config, df: Table, mgr: string, c: string): Row -> bool {
    row => cfg.colCode.Some? && cfg.colManager.Some? && NamedRow(cfg, df, row, mgr, c)
  }

  /** The entry a row writes, as a function value. */
  function StoredInfo(cfg: Config, df: Table): Row -> Option<AgentInfo> {
    row => if cfg.colCode.Some? then Some(RowInfo(cfg, df, row)) else None
  }

  /** Row `i` of scheme `k` is one the list step stores under `c`. */
  ghost predicate NamedAt(configs: seq<Config>, data: map<string, Table>, mgr: string, c: string, k: int, i: int) {
    0 <= k < |configs| && Contributes(configs[k], data) && 0 <= i < |data[configs[k].file].rows|
    && NamedRow(configs[k], data[configs[k].file], data[configs[k].file].rows[i], mgr, c)
  }

  /** Row `i` of scheme `k` is the last such row, schemes first, then rows in table order. */
  ghost predicate LatestAt(configs: seq<Config>, data: map<string, Table>, mgr: string, c: string, k: int, i: int) {
    NamedAt(configs, data, mgr, c, k, i)
    && forall k', i' :: NamedAt(configs, data, mgr, c, k', i') ==> k' < k || (k' == k && i' <= i)
  }

  /** `r` is the entry the list step stores under `c`: present exactly when some row is a
      `NamedAt` for `c`, and then read from the latest such row. */
  ghost predicate StoredFor(configs: seq<Config>, data: map<string, Table>, mgr: string, c: string,
                            r: Option<AgentInfo>) {
    (r.Some? <==> exists k, i :: NamedAt(configs, data, mgr, c, k, i))
    && (r.Some? ==> exists k, i :: LatestAt(configs, data, mgr, c, k, i)
                     && r == Some(RowInfo(configs[k], data[configs[k].file], data[configs[k].file].rows[i])))
  }

  /** The list step's dictionary holds `c` exactly when some managed row of a usable scheme
      has code `c` and a non-empty name, and its entry is the name and agency read from the
      last such row: a later row overwrites an earlier one (prize.py:583-589). */
  lemma AgentInfosLookup(configs: seq<Config>, data: map<string, Table>, mgr: string, c: string)
    ensures Lookup(AgentInfos(configs, data, mgr), c).Some? <==>
      exists k, i :: NamedAt(configs, data, mgr, c, k, i)
    ensures Lookup(AgentInfos(configs, data, mgr), c).Some? ==>
      exists k, i :: LatestAt(configs, data, mgr, c, k, i)
        && Lookup(AgentInfos(configs, data, mgr), c)
           == Some(RowInfo(configs[k], data[configs[k].file], data[configs[k].file].rows[i]))
  {
    AgentInfosStored(configs, data, mgr, c);
  }

  lemma {:induction false} AgentInfosStored(configs: seq<Config>, data: map<string, Table>, mgr: string, c: string)
    ensures StoredFor(configs, data, mgr, c, Lookup(AgentInfos(configs, data, mgr), c))
  {
    if configs != [] {
      var init, cfg := configs[..|configs| - 1], configs[|configs| - 1];
      var n := |configs| - 1;
      AgentInfosStored(init, data, mgr, c);
      InfosManaged(init, data, mgr, c);
      var acc := AgentInfos(init, data, mgr);
      var infos := AgentInfos(configs, data, mgr);
      if Contributes(cfg, data) {
        var df := data[cfg.file];
        AddRowInfosLookup(acc, cfg, df, df.rows, mgr, c);
        assert infos == AddRowInfos(acc, cfg, df, df.rows, mgr);
        var p := IsNamed(cfg, df, mgr, c);
        if exists i :: 0 <= i < |df.rows| && p(df.rows[i]) {
          var i :| 0 <= i < |df.rows| && p(df.rows[i]) && (forall i' :: i < i' < |df.rows| ==> !p(df.rows[i']))
                   && Lookup(infos, c) == StoredInfo(cfg, df)(df.rows[i]);
          StoredFromLast(configs, data, mgr, c, i, Lookup(infos, c));
        } else {
          forall k, i ensures !(k == n && NamedAt(configs, data, mgr, c, k, i)) {
            if k == n && 0 <= i < |df.rows| { assert !p(df.rows[i]); }
          }
          StoredFromInit(configs, data, mgr, c, Lookup(infos, c));
        }
      } else {
        assert infos == acc;
        StoredFromInit(configs, data, mgr, c, Lookup(infos, c));
      }
    }
  }

  /** When the last scheme stores nothing under `c`, the entry is the one the schemes
      before it stored. */
  lemma StoredFromInit(configs: seq<Config>, data: map<string, Table>, mgr: string, c: string, r: Option<AgentInfo>)
    requires configs != []
    requires forall k, i :: !(k == |configs| - 1 && NamedAt(configs, data, mgr, c, k, i))
    requires StoredFor(configs[..|configs| - 1], data, mgr, c, r)
    ensures StoredFor(configs, data, mgr, c, r)
  {
    var init := configs[..|configs| - 1];
    var n := |configs| - 1;
    forall k, i | 0 <= k < n ensures NamedAt(configs, data, mgr, c, k, i) <==> NamedAt(init, data, mgr, c, k, i) {
      assert configs[k] == init[k];
    }
    if exists k, i :: NamedAt(configs, data, mgr, c, k, i) {
      var k, i :| NamedAt(configs, data, mgr, c, k, i);
      assert k < n;
      assert NamedAt(init, data, mgr, c, k, i);
    }
    if r.Some? {
      var k, i :| LatestAt(init, data, mgr, c, k, i)
        && r == Some(RowInfo(init[k], data[init[k].file], data[init[k].file].rows[i]));
      assert configs[k] == init[k];
      assert NamedAt(configs, data, mgr, c, k, i);
      forall k', i' | NamedAt(configs, data, mgr, c, k', i') ensures k' < k || (k' == k && i' <= i) {
        assert k' < n;
        assert NamedAt(init, data, mgr, c, k', i');
      }
      assert LatestAt(configs, data, mgr, c, k, i);
    }
  }

  /** When the last scheme's row `i` is its last `NamedRow` for `c`, that row's entry is
      the one stored. */
  lemma StoredFromLast(configs: seq<Config>, data: map<string, Table>, mgr: string, c: string, i: int,
                       r: Option<AgentInfo>)
    requires configs != [] && Contributes(configs[|configs| - 1], data)
    requires var cfg := configs[|configs| - 1]; var df := data[cfg.file];
      0 <= i < |df.rows| && NamedRow(cfg, df, df.rows[i], mgr, c)
      && (forall i' :: i < i' < |df.rows| ==> !NamedRow(cfg, df, df.rows[i'], mgr, c))
      && r == Some(RowInfo(cfg, df, df.rows[i]))
    ensures StoredFor(configs, data, mgr, c, r)
  {
    var n := |configs| - 1;
    assert NamedAt(configs, data, mgr, c, n, i);
    assert LatestAt(configs, data, mgr, c, n, i);
  }

  /** The nested loops of prize.py:570-589. */
  method CollectAgentInfos(configs: seq<Config>, data: map<string, Table>, mgr: string)
    returns (agents: seq<AgentInfo>)
    ensures agents == AgentInfos(configs, data, mgr)
  {
    agents := [];
    var i := 0;
    while i < |configs|
      invariant 0 <= i <= |configs|
      invariant agents == AgentInfos(configs[..i], data, mgr)
    {
      var cfg := configs[i];
      assert configs[..i + 1][..i] == configs[..i];
      if Contributes(cfg, data) {
        agents := AddManagedInfos(agents, cfg, data[cfg.file], mgr);
      }
      i := i + 1;
    }
    assert configs[..i] == configs;
  }

  /** The inner loop over one table's rows (prize.py:583-589). */
  method AddManagedInfos(base: seq<AgentInfo>, cfg: Config, df: Table, mgr: string)
    returns (agents: seq<AgentInfo>)
    requires cfg.colCode.Some? && cfg.colManager.Some?
    ensures agents == AddRowInfos(base, cfg, df, df.rows, mgr)
  {
    agents := base;
    var j := 0;
    while j < |df.rows|
      invariant 0 <= j <= |df.rows|
      invariant agents == AddRowInfos(base, cfg, df, df.rows[..j], mgr)
    {
      var row := df.rows[j];
      if ManagedRow(row, cfg.colManager.value, mgr) {
        agents := Upsert(agents, RowInfo(cfg, df, row));
      }
      assert df.rows[..j + 1][..j] == df.rows[..j];
      j := j + 1;
    }
    assert df.rows[..j] == df.rows;
  }

  /** A selected record whose value lies in `[lo, hi)`. */
  predicate BandHit(cat: string, res: PerfResult, lo: real, hi: real) {
    Selected(cat, res) && lo <= ReportValue(res) < hi
  }

  /** The first selected record of an agent whose value lies in `[lo, hi)`: the value the
      list step shows for the agent (prize.py:600-610). */
  function Hit(cat: string, results: seq<PerfResult>, lo: real, hi: real): Option<real> {
    if results == [] then None
    else if BandHit(cat, results[0], lo, hi) then Some(ReportValue(results[0]))
    else Hit(cat, results[1..], lo, hi)
  }

  /** There is a hit exactly when some selected record lies in `[lo, hi)`, and the hit is
      the value of the first such record. */
  lemma {:induction false} HitSpec(cat: string, results: seq<PerfResult>, lo: real, hi: real)
    ensures Hit(cat, results, lo, hi).None? <==>
      forall k :: 0 <= k < |results| ==> !BandHit(cat, results[k], lo, hi)
    ensures Hit(cat, results, lo, hi).Some? ==>
      var v := Hit(cat, results, lo, hi).value;
      lo <= v < hi
      && exists k :: 0 <= k < |results| && BandHit(cat, results[k], lo, hi) && ReportValue(results[k]) == v
           && forall k' :: 0 <= k' < k ==> !BandHit(cat, results[k'], lo, hi)
  {
    if results != [] {
      HitSpec(cat, results[1..], lo, hi);
      assert forall k :: 1 <= k < |results| ==> results[1..][k - 1] == results[k];
      if Hit(cat, results, lo, hi).Some? {
        var v := Hit(cat, results, lo, hi).value;
        if BandHit(cat, results[0], lo, hi) {
          assert BandHit(cat, results[0], lo, hi) && ReportValue(results[0]) == v;
        } else {
          var k :| 0 <= k < |results[1..]| && BandHit(cat, results[1..][k], lo, hi) && ReportValue(results[1..][k]) == v
            && forall k' :: 0 <= k' < k ==> !BandHit(cat, results[1..][k'], lo, hi);
          assert results[k + 1] == results[1..][k];
          assert forall k' :: 0 <= k' < k + 1 ==> !BandHit(cat, results[k'], lo, hi) by {
            forall k' | 0 <= k' < k + 1 ensures !BandHit(cat, results[k'], lo, hi) {
              if k' > 0 {
                assert results[k'] == results[1..][k' - 1];
              }
            }
          }
        }
      }
    }
  }

  /** One line of the list: `(code, name, agency, val)`. */
  datatype NearEntry = NearEntry(code: string, name: string, agency: string, val: real)

  /** The sort key of the list, `x[3]`. */
  function EntryValue(e: NearEntry): real {
    e.val
  }

  /** `near_agents` before sorting: one entry per agent with a hit, in dictionary order. */
  function Hits(cat: string, configs: seq<Config>, data: map<string, Table>, infos: seq<AgentInfo>,
                lo: real, hi: real): seq<NearEntry>
  {
    if infos == [] then []
    else Hits(cat, configs, data, infos[..|infos| - 1], lo, hi) + HitEntry(cat, configs, data, infos[|infos| - 1], lo, hi)
  }

  /** The entry one agent contributes: its first hit, if any. */
  function HitEntry(cat: string, configs: seq<Config>, data: map<string, Table>, info: AgentInfo,
                    lo: real, hi: real): (r: seq<NearEntry>)
    ensures |r| <= 1 && forall e :: e in r ==> e.code == info.code
  {
    match Hit(cat, Aggregate(configs, data, info.code), lo, hi)
    case None => []
    case Some(v) => [NearEntry(info.code, info.name, info.agency, v)]
  }

  /** The list as shown: the hits sorted by value, highest first, ties in dictionary order
      (`NearListSpec`). */
  function NearList(cat: string, configs: seq<Config>, data: map<string, Table>, infos: seq<AgentInfo>,
                    lo: real, hi: real): seq<NearEntry>
  {
    SortDescBy(Hits(cat, configs, data, infos, lo, hi), EntryValue)
  }

  /** The inner loop of prize.py:600-610, stopping at the first hit. */
  method FirstHit(cat: string, results: seq<PerfResult>, lo: real, hi: real) returns (r: Option<real>)
    ensures r == Hit(cat, results, lo, hi)
  {
    var j := 0;
    while j < |results|
      invariant 0 <= j <= |results|
      invariant Hit(cat, results[j..], lo, hi) == Hit(cat, results, lo, hi)
    {
      var res := results[j];
      if Selected(cat, res) {
        var val := ReportValue(res);
        if lo <= val < hi {
          return Some(val);
        }
      }
      assert results[j..][1..] == results[j + 1..];
      j := j + 1;
    }
    r := None;
  }

  /** The entry one agent of the dictionary contributes (prize.py:596-611). */
  method AgentEntry(cat: string, configs: seq<Config>, data: map<string, Table>, info: AgentInfo,
                    lo: real, hi: real) returns (entry: seq<NearEntry>)
    ensures entry == HitEntry(cat, configs, data, info, lo, hi)
  {
    var results, _ := CalculateAgentPerformance(configs, data, info.code);
    var hit := FirstHit(cat, results, lo, hi);
    entry := if hit.Some? then [NearEntry(info.code, info.name, info.agency, hit.value)] else [];
  }

  /** The list step after the dictionary is built (prize.py:594-616). */
  method NearAgents(cat: string, configs: seq<Config>, data: map<string, Table>, infos: seq<AgentInfo>,
                    lo: real, hi: real) returns (near: seq<NearEntry>)
    ensures near == NearList(cat, configs, data, infos, lo, hi)
  {
    near := [];
    var i := 0;
    while i < |infos|
      invariant 0 <= i <= |infos|
      invariant near == Hits(cat, configs, data, infos[..i], lo, hi)
    {
      var entry := AgentEntry(cat, configs, data, infos[i], lo, hi);
      assert infos[..i + 1][..i] == infos[..i];
      assert Hits(cat, configs, data, infos[..i + 1], lo, hi) == near + entry;
      near := near + entry;
      i := i + 1;
    }
    assert infos[..i] == infos;
    near := SortDescBy(near, EntryValue);
  }

  /** Where the unsorted list's entries come from: each is the hit of an agent of the
      dictionary, with that agent's name and agency; and every agent with a hit has its
      entry. */
  lemma HitsSpec(cat: string, configs: seq<Config>, data: map<string, Table>,
                 infos: seq<AgentInfo>, lo: real, hi: real)
    ensures forall e :: e in Hits(cat, configs, data, infos, lo, hi) ==>
      exists k :: 0 <= k < |infos| && infos[k].code == e.code && infos[k].name == e.name
                  && infos[k].agency == e.agency && Hit(cat, Aggregate(configs, data, e.code), lo, hi) == Some(e.val)
    ensures forall k :: 0 <= k < |infos| && Hit(cat, Aggregate(configs, data, infos[k].code), lo, hi).Some? ==>
      NearEntry(infos[k].code, infos[k].name, infos[k].agency,
                Hit(cat, Aggregate(configs, data, infos[k].code), lo, hi).value)
      in Hits(cat, configs, data, infos, lo, hi)
  {
    HitsSource(cat, configs, data, infos, lo, hi);
    HitsComplete(cat, configs, data, infos, lo, hi);
  }

  /** The source half of `HitsSpec`. */
  lemma {:induction false} HitsSource(cat: string, configs: seq<Config>, data: map<string, Table>,
                                      infos: seq<AgentInfo>, lo: real, hi: real)
    ensures forall e :: e in Hits(cat, configs, data, infos, lo, hi) ==>
      exists k :: 0 <= k < |infos| && infos[k].code == e.code && infos[k].name == e.name
                  && infos[k].agency == e.agency && Hit(cat, Aggregate(configs, data, e.code), lo, hi) == Some(e.val)
  {
    if infos != [] {
      var init, last := infos[..|infos| - 1], infos[|infos| - 1];
      HitsSource(cat, configs, data, init, lo, hi);
      var prev := Hits(cat, configs, data, init, lo, hi);
      var tail := HitEntry(cat, configs, data, last, lo, hi);
      assert Hits(cat, configs, data, infos, lo, hi) == prev + tail;
      forall e: NearEntry | e in prev + tail
        ensures exists k :: 0 <= k < |infos| && infos[k].code == e.code && infos[k].name == e.name
                  && infos[k].agency == e.agency && Hit(cat, Aggregate(configs, data, e.code), lo, hi) == Some(e.val)
      {
        if e in prev {
          var k :| 0 <= k < |init| && init[k].code == e.code && init[k].name == e.name
                  && init[k].agency == e.agency && Hit(cat, Aggregate(configs, data, e.code), lo, hi) == Some(e.val);
          assert infos[k] == init[k];
        } else {
          assert e in tail;
          assert infos[|infos| - 1] == last;
        }
      }
    }
  }

  /** The completeness half of `HitsSpec`. */
  lemma {:induction false} HitsComplete(cat: string, configs: seq<Config>, data: map<string, Table>,
                                        infos: seq<AgentInfo>, lo: real, hi: real)
    ensures forall k :: 0 <= k < |infos| && Hit(cat, Aggregate(configs, data, infos[k].code), lo, hi).Some? ==>
      NearEntry(infos[k].code, infos[k].name, infos[k].agency,
                Hit(cat, Aggregate(configs, data, infos[k].code), lo, hi).value)
      in Hits(cat, configs, data, infos, lo, hi)
  {
    if infos != [] {
      var init, last := infos[..|infos| - 1], infos[|infos| - 1];
      HitsComplete(cat, configs, data, init, lo, hi);
      var prev := Hits(cat, configs, data, init, lo, hi);
      var tail := HitEntry(cat, configs, data, last, lo, hi);
      assert Hits(cat, configs, data, infos, lo, hi) == prev + tail;
      forall k | 0 <= k < |infos| && Hit(cat, Aggregate(configs, data, infos[k].code), lo, hi).Some?
        ensures NearEntry(infos[k].code, infos[k].name, infos[k].agency,
                          Hit(cat, Aggregate(configs, data, infos[k].code), lo, hi).value) in prev + tail
      {
        if k < |init| {
          assert infos[k] == init[k];
        }
      }
    }
  }

  /** Every entry's value lies in the band, `lo <= val < hi`. */
  lemma HitsInRange(cat: string, configs: seq<Config>, data: map<string, Table>,
                    infos: seq<AgentInfo>, lo: real, hi: real, e: NearEntry)
    requires e in Hits(cat, configs, data, infos, lo, hi)
    ensures lo <= e.val < hi
  {
    HitsSpec(cat, configs, data, infos, lo, hi);
    HitSpec(cat, Aggregate(configs, data, e.code), lo, hi);
  }

  /** Over a dictionary (distinct codes), no code has two entries. */
  lemma {:induction false} HitsCodesDistinct(cat: string, configs: seq<Config>, data: map<string, Table>,
                                             infos: seq<AgentInfo>, lo: real, hi: real)
    requires InfosValid(infos)
    ensures forall i, j :: 0 <= i < j < |Hits(cat, configs, data, infos, lo, hi)| ==>
      Hits(cat, configs, data, infos, lo, hi)[i].code != Hits(cat, configs, data, infos, lo, hi)[j].code
  {
    if infos != [] {
      var init, last := infos[..|infos| - 1], infos[|infos| - 1];
      assert InfosValid(init) by {
        assert forall k :: 0 <= k < |init| ==> init[k] == infos[k];
      }
      HitsCodesDistinct(cat, configs, data, init, lo, hi);
      HitsFrom(cat, configs, data, init, lo, hi);
      var prev := Hits(cat, configs, data, init, lo, hi);
      var tail := HitEntry(cat, configs, data, last, lo, hi);
      forall i | 0 <= i < |prev| ensures prev[i].code != last.code {
        var k :| 0 <= k < |init| && init[k].code == prev[i].code;
        assert init[k] == infos[k];
      }
      var h := prev + tail;
      forall i, j | 0 <= i < j < |h| ensures h[i].code != h[j].code {
        if j < |prev| {
          assert h[i] == prev[i] && h[j] == prev[j];
        } else {
          assert h[i] == prev[i] && h[j] == tail[j - |prev|];
        }
      }
    }
  }

  /** Every entry carries the code of an agent of the dictionary. */
  lemma {:induction false} HitsFrom(cat: string, configs: seq<Config>, data: map<string, Table>,
                                    infos: seq<AgentInfo>, lo: real, hi: real)
    ensures forall e :: e in Hits(cat, configs, data, infos, lo, hi) ==>
      exists k :: 0 <= k < |infos| && infos[k].code == e.code
  {
    if infos != [] {
      var init := infos[..|infos| - 1];
      HitsFrom(cat, configs, data, init, lo, hi);
      assert forall k :: 0 <= k < |init| ==> init[k] == infos[k];
    }
  }

  /** A sequence with pairwise distinct entries holds each value at most once. */
  lemma {:induction false} AtMostOnce<T>(s: seq<T>, x: T)
    requires forall i, j :: 0 <= i < j < |s| ==> s[i] != s[j]
    ensures multiset(s)[x] <= 1
  {
    if s != [] {
      AtMostOnce(s[1..], x);
      assert s == [s[0]] + s[1..];
      if x == s[0] {
        assert x !in s[1..] by {
          forall k | 0 <= k < |s[1..]| ensures s[1..][k] != x {
            assert s[1..][k] == s[k + 1];
          }
        }
      }
    }
  }

  /** Two equal entries at different positions are two copies. */
  lemma TwoCopies<T>(r: seq<T>, i: int, j: int)
    requires 0 <= i < j < |r|
    ensures r[i] == r[j] ==> multiset(r)[r[i]] >= 2
  {
    assert r == r[..j] + [r[j]] + r[j + 1..];
    assert r[..j][i] == r[i];
    assert r[i] in multiset(r[..j]);
  }

  /** A permutation of a sequence of distinct entries has distinct entries. */
  lemma DistinctPermutation<T>(s: seq<T>, r: seq<T>)
    requires forall i, j :: 0 <= i < j < |s| ==> s[i] != s[j]
    requires multiset(r) == multiset(s)
    ensures forall i, j :: 0 <= i < j < |r| ==> r[i] != r[j]
  {
    forall i, j | 0 <= i < j < |r| ensures r[i] != r[j] {
      TwoCopies(r, i, j);
      AtMostOnce(s, r[i]);
    }
  }

  /** What the list promises: it is sorted by value, highest first; it holds exactly the
      unsorted entries; every value lies in the band; and, over a dictionary, each agent
      appears at most once. */
  lemma NearListSpec(cat: string, configs: seq<Config>, data: map<string, Table>,
                     infos: seq<AgentInfo>, lo: real, hi: real)
    requires InfosValid(infos)
    ensures var r := NearList(cat, configs, data, infos, lo, hi);
      SortedDescBy(r, EntryValue)
      && multiset(r) == multiset(Hits(cat, configs, data, infos, lo, hi))
      && (forall k :: 0 <= k < |r| ==> lo <= r[k].val < hi)
      && (forall i, j :: 0 <= i < j < |r| ==> r[i].code != r[j].code)
      && forall v :: WithKey(r, EntryValue, v) == WithKey(Hits(cat, configs, data, infos, lo, hi), EntryValue, v)
  {
    var h := Hits(cat, configs, data, infos, lo, hi);
    var r := NearList(cat, configs, data, infos, lo, hi);
    forall v ensures WithKey(r, EntryValue, v) == WithKey(h, EntryValue, v) {
      SortDescByStable(h, EntryValue, v);
    }
    HitsCodesDistinct(cat, configs, data, infos, lo, hi);
    CodesPermutation(h, r);
    forall k | 0 <= k < |r| ensures lo <= r[k].val < hi {
      assert r[k] in multiset(h);
      HitsInRange(cat, configs, data, infos, lo, hi, r[k]);
    }
  }

  /** Reordering entries with distinct codes keeps the codes distinct. */
  lemma CodesPermutation(h: seq<NearEntry>, r: seq<NearEntry>)
    requires forall i, j :: 0 <= i < j < |h| ==> h[i].code != h[j].code
    requires multiset(r) == multiset(h)
    ensures forall i, j :: 0 <= i < j < |r| ==> r[i].code != r[j].code
  {
    assert forall i, j :: 0 <= i < j < |h| ==> h[i] != h[j] by {
      forall i, j | 0 <= i < j < |h| ensures h[i] != h[j] {
        assert h[i].code != h[j].code;
      }
    }
    DistinctPermutation(h, r);
    forall i, j | 0 <= i < j < |r| ensures r[i].code != r[j].code {
      assert r[i] in multiset(h) && r[j] in multiset(h);
      var a :| 0 <= a < |h| && h[a] == r[i];
      var b :| 0 <= b < |h| && h[b] == r[j];
      assert a != b;
    }
  }

  /** The count step and the list step agree on a band: an agent's records fall in the
      band's folder exactly when the list for that band has a hit for it. */
  lemma FolderIffHit(cat: string, results: seq<PerfResult>, b: Band)
    requires b in Bands
    ensures b.target in Folders(cat, results) <==> Hit(cat, results, b.lo, b.hi).Some?
  {
    FoldersSpec(cat, results, b.target);
    HitSpec(cat, results, b.lo, b.hi);
    if b.target in Folders(cat, results) {
      var k :| 0 <= k < |results| && Selected(cat, results[k])
               && BandOf(ReportValue(results[k])).Some? && BandOf(ReportValue(results[k])).value.target == b.target;
      BandOfSpec(ReportValue(results[k]));
      BandTargetsDistinct(BandOf(ReportValue(results[k])).value, b);
    }
    if Hit(cat, results, b.lo, b.hi).Some? {
      var v := Hit(cat, results, b.lo, b.hi).value;
      var k :| 0 <= k < |results| && Selected(cat, results[k]) && ReportValue(results[k]) == v;
      BandOfSpec(v);
      assert InBand(b, v);
    }
  }

  /** An agent of the dictionary is listed under a band exactly when the count step puts
      it in that band's folder. */
  lemma ListedIffCounted(cat: string, configs: seq<Config>, data: map<string, Table>,
                         infos: seq<AgentInfo>, b: Band, k: int)
    requires b in Bands && InfosValid(infos) && 0 <= k < |infos|
    ensures (exists e :: e in NearList(cat, configs, data, infos, b.lo, b.hi) && e.code == infos[k].code)
            <==> b.target in AgentFolders(cat, configs, data, infos[k].code)
  {
    var h := Hits(cat, configs, data, infos, b.lo, b.hi);
    var r := NearList(cat, configs, data, infos, b.lo, b.hi);
    var results := Aggregate(configs, data, infos[k].code);
    FolderIffHit(cat, results, b);
    HitsSpec(cat, configs, data, infos, b.lo, b.hi);
    assert forall e :: e in r <==> e in h by {
      forall e ensures e in r <==> e in h {
        assert e in r <==> e in multiset(r);
        assert e in h <==> e in multiset(h);
      }
    }
    if Hit(cat, results, b.lo, b.hi).Some? {
      var e := NearEntry(infos[k].code, infos[k].name, infos[k].agency, Hit(cat, results, b.lo, b.hi).value);
      assert e in h;
    }
  }

  /** In the manager view itself, an agent code is listed under a band exactly when some
      managed row of a usable scheme gives it a non-empty name and the count step puts it
      in that band's folder; such an agent is one the count step counts. */
  lemma ListedInView(cat: string, configs: seq<Config>, data: map<string, Table>, mgr: string, b: Band, c: string)
    requires b in Bands
    ensures (exists e :: e in NearList(cat, configs, data, AgentInfos(configs, data, mgr), b.lo, b.hi) && e.code == c)
            <==> (exists k, i :: NamedAt(configs, data, mgr, c, k, i)) && b.target in AgentFolders(cat, configs, data, c)
    ensures (exists k, i :: NamedAt(configs, data, mgr, c, k, i)) ==> c in AgentCodes(configs, data, mgr)
  {
    AgentInfosLookup(configs, data, mgr, c);
    InfosManaged(configs, data, mgr, c);
    if Lookup(AgentInfos(configs, data, mgr), c).Some? {
      ListedWhenStored(cat, configs, data, AgentInfos(configs, data, mgr), b, c);
      StoredIsCounted(configs, data, mgr, c);
    } else {
      NotListedUnlessStored(cat, configs, data, AgentInfos(configs, data, mgr), b, c);
    }
  }

  /** A code with an entry is listed under a band exactly when it has that folder. */
  lemma ListedWhenStored(cat: string, configs: seq<Config>, data: map<string, Table>, infos: seq<AgentInfo>,
                         b: Band, c: string)
    requires b in Bands && InfosValid(infos) && Lookup(infos, c).Some?
    ensures (exists e :: e in NearList(cat, configs, data, infos, b.lo, b.hi) && e.code == c)
            <==> b.target in AgentFolders(cat, configs, data, c)
  {
    var j :| 0 <= j < |infos| && infos[j] == Lookup(infos, c).value;
    ListedIffCounted(cat, configs, data, infos, b, j);
  }

  /** A code of the list step's dictionary is one the count step collects. */
  lemma StoredIsCounted(configs: seq<Config>, data: map<string, Table>, mgr: string, c: string)
    requires Lookup(AgentInfos(configs, data, mgr), c).Some?
    ensures c in AgentCodes(configs, data, mgr)
  {
    var infos := AgentInfos(configs, data, mgr);
    var j :| 0 <= j < |infos| && infos[j] == Lookup(infos, c).value;
    AgentInfosSpec(configs, data, mgr, c);
    CodesOfAt(infos, j);
  }

  /** A code without an entry is listed nowhere. */
  lemma NotListedUnlessStored(cat: string, configs: seq<Config>, data: map<string, Table>, infos: seq<AgentInfo>,
                              b: Band, c: string)
    requires Lookup(infos, c).None?
    ensures forall e :: e in NearList(cat, configs, data, infos, b.lo, b.hi) ==> e.code != c
  {
    var h := Hits(cat, configs, data, infos, b.lo, b.hi);
    HitsFrom(cat, configs, data, infos, b.lo, b.hi);
    forall e | e in NearList(cat, configs, data, infos, b.lo, b.hi) ensures e.code != c {
      assert e in multiset(h);
    }
  }
}
