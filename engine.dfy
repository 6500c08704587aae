/** The prize-calculation engine of prize.py: scheme configurations, uploaded tables,
    the per-scheme evaluator and the per-agent aggregator `calculate_agent_performance`
    (prize.py:200-317), and the subtotals shown by `render_ui_cards` (prize.py:322-326). */
module Engine {
  import opened TextUtil
  import opened NumText
  import opened Codes
  import opened Tiers

  /** A table row: column name to cell. */
  type Row = map<string, Cell>

  /** An uploaded table: its column names and its rows. */
  datatype Table = Table(columns: set<string>, rows: seq<Row>)

  /** The cell of `row` in column `col` (missing if the row has no such cell). */
  function CellAt(row: Row, col: string): Cell {
    if col in row then row[col] else Missing
  }

  /** One scheme of the configuration list. `None` stands for a key the stored
      dictionary does not have; `desc` is `""` when absent, as every reader defaults it. */
  datatype Config = Config(
    name: string,
    desc: string,
    category: Option<string>,
    kind: Option<string>,
    file: string,
    colCode: Option<string>,
    colName: Option<string>,
    colBranch: Option<string>,
    colAgency: Option<string>,
    colManager: Option<string>,
    colVal: Option<string>,
    colValPrev: Option<string>,
    colValCurr: Option<string>,
    colPrize: Option<string>,
    currReq: Option<real>,
    tiers: seq<Tier>)

  /** `cfg.get('category', 'weekly')`. */
  function CategoryOf(cfg: Config): string {
    if cfg.category.Some? then cfg.category.value else "weekly"
  }

  /** `float(cfg.get('curr_req', 100000.0))`. */
  function RequirementOf(cfg: Config): real {
    if cfg.currReq.Some? then cfg.currReq.value else 100000.0
  }

  /** The three weekly scheme kinds. */
  datatype Kind = FlatTier | BridgeConfirmed | BridgeConditional

  /** The kind is chosen by substring on `cfg.get('type', '구간 시책')`: "1기간" first,
      then "2기간", and anything else is a flat tier scheme. */
  function KindOf(cfg: Config): (k: Kind)
    ensures k == BridgeConfirmed <==> cfg.kind.Some? && HasSubstring(cfg.kind.value, "1기간")
    ensures k == BridgeConditional <==>
      cfg.kind.Some? && !HasSubstring(cfg.kind.value, "1기간") && HasSubstring(cfg.kind.value, "2기간")
  {
    var t := if cfg.kind.Some? then cfg.kind.value else "구간 시책";
    assert cfg.kind.None? ==> !HasSubstring(t, "1기간") && !HasSubstring(t, "2기간") by {
      NotSubstringByChar("구간 시책", "1기간", '기');
      NotSubstringByChar("구간 시책", "2기간", '기');
    }
    if HasSubstring(t, "1기간") then BridgeConfirmed
    else if HasSubstring(t, "2기간") then BridgeConditional
    else FlatTier
  }

  /** The record one scheme contributes for one agent. */
  datatype PerfResult =
    | Bridge1(name: string, desc: string, valPrev: real, tierPrev: real, valCurr: real,
              currReq: real, rate: real, prize: real, shortfallCurr: real)
    | Bridge2(name: string, desc: string, val: real, tier: real, rate: real, prize: real,
              currReq: real, nextTier: Option<real>, shortfall: real)
    | Flat(name: string, desc: string, val: real, tier: real, rate: real, prize: real,
           nextTier: Option<real>, shortfall: real)
    | Cumulative(name: string, desc: string, val: real, prize: real)
  {
    /** The record's `category` field. */
    function Category(): string {
      if Cumulative? then "cumulative" else "weekly"
    }

    /** The record's `type` field. */
    function TypeLabel(): string {
      match this
      case Bridge1(_, _, _, _, _, _, _, _, _) => "브릿지1"
      case Bridge2(_, _, _, _, _, _, _, _, _) => "브릿지2"
      case Flat(_, _, _, _, _, _, _, _) => "구간"
      case Cumulative(_, _, _, _) => "누계"
    }
  }

  /** `next_tier - val if next_tier else 0`: the test is Python truthiness, so a next
      threshold of exactly 0 also yields 0. */
  function Shortfall(next: Option<real>, v: real): real {
    if next.Some? && next.value != 0.0 then next.value - v else 0.0
  }

  /** `base * (rate / 100)`: a prize at `rate` percent of `base`. */
  function Percent(base: real, rate: real): real {
    base * (rate / 100.0)
  }

  /** Flat tier scheme (prize.py:276-298): the prize is the reached threshold times its rate. */
  function FlatResult(name: string, desc: string, tiers: seq<Tier>, val: real): PerfResult {
    var a := Achieved(tiers, val);
    var next := NextAbove(tiers, val);
    Flat(name, desc, val,
         if a.Some? then a.value.threshold else 0.0,
         if a.Some? then a.value.rate else 0.0,
         if a.Some? then Percent(a.value.threshold, a.value.rate) else 0.0,
         next, Shortfall(next, val))
  }

  /** Bridge, first period (prize.py:217-242): the previous period's tier is paid, together
      with the requirement, only once the current period reaches the requirement. */
  function Bridge1Result(name: string, desc: string, tiers: seq<Tier>,
                         valPrev: real, valCurr: real, currReq: real): PerfResult
  {
    var a := if valCurr >= currReq then Achieved(tiers, valPrev) else None;
    var tierPrev := if a.Some? then a.value.threshold else 0.0;
    var rate := if a.Some? then a.value.rate else 0.0;
    Bridge1(name, desc, valPrev, tierPrev, valCurr, currReq, rate,
            if a.Some? then Percent(tierPrev + currReq, rate) else 0.0,
            if valCurr < currReq then currReq - valCurr else 0.0)
  }

  /** Bridge, second period (prize.py:244-274): the tier is taken on the current value and
      the projected prize adds the next month's requirement, when the tier is positive. */
  function Bridge2Result(name: string, desc: string, tiers: seq<Tier>,
                         valCurr: real, currReq: real): PerfResult
  {
    var a := Achieved(tiers, valCurr);
    var tier := if a.Some? then a.value.threshold else 0.0;
    var rate := if a.Some? then a.value.rate else 0.0;
    var next := NextAbove(tiers, valCurr);
    Bridge2(name, desc, valCurr, tier, rate,
            if tier > 0.0 then Percent(tier + currReq, rate) else 0.0,
            currReq, next, Shortfall(next, valCurr))
  }

  /** A weekly value cell: `match_df[col].values[0] if cfg.get(col) in df.columns else 0`,
      then parsed. */
  function WeeklyValue(df: Table, row: Row, col: Option<string>): real {
    if col.Some? && col.value in df.columns then Amount(CellText(CellAt(row, col.value))) else 0.0
  }

  /** A passthrough cell: read only when the column is set, non-empty and present. */
  function PassthroughValue(df: Table, row: Row, col: Option<string>): real {
    if col.Some? && col.value != "" && col.value in df.columns
    then Amount(CellText(CellAt(row, col.value))) else 0.0
  }

  /** The code column is usable: set, non-empty and a column of the table (prize.py:206-207). */
  predicate CodeColumnUsable(cfg: Config, df: Table) {
    cfg.colCode.Some? && cfg.colCode.value != "" && cfg.colCode.value in df.columns
  }

  /** Row `row` carries the agent code `key` in column `col`, compared after `safe_str`. */
  predicate RowHasCode(row: Row, col: string, key: string) {
    SafeStr(CellAt(row, col)) == key
  }

  /** The first row whose normalised code equals `key` (prize.py:209, `.values[0]`). */
  function FirstMatch(rows: seq<Row>, col: string, key: string): (r: Option<nat>)
    ensures r.None? <==> forall i :: 0 <= i < |rows| ==> !RowHasCode(rows[i], col, key)
    ensures r.Some? ==> r.value < |rows| && RowHasCode(rows[r.value], col, key)
                        && forall i :: 0 <= i < r.value ==> !RowHasCode(rows[i], col, key)
  {
    if rows == [] then None
    else if RowHasCode(rows[0], col, key) then Some(0)
    else
      match FirstMatch(rows[1..], col, key)
      case None => None
      case Some(k) => Some(k + 1)
  }

  /** The scheme's result for the matched row; `None` for a category that is neither
      `weekly` nor `cumulative`. */
  function EvaluateRow(cfg: Config, df: Table, row: Row): Option<PerfResult> {
    var cat := CategoryOf(cfg);
    if cat == "weekly" then
      Some(match KindOf(cfg)
           case BridgeConfirmed =>
             Bridge1Result(cfg.name, cfg.desc, cfg.tiers, WeeklyValue(df, row, cfg.colValPrev),
                           WeeklyValue(df, row, cfg.colValCurr), RequirementOf(cfg))
           case BridgeConditional =>
             Bridge2Result(cfg.name, cfg.desc, cfg.tiers, WeeklyValue(df, row, cfg.colValCurr),
                           RequirementOf(cfg))
           case FlatTier =>
             FlatResult(cfg.name, cfg.desc, cfg.tiers, WeeklyValue(df, row, cfg.colVal)))
    else if cat == "cumulative" then
      Some(Cumulative(cfg.name, cfg.desc, PassthroughValue(df, row, cfg.colVal),
                      PassthroughValue(df, row, cfg.colPrize)))
    else None
  }

  /** Why a scheme contributes nothing for an agent: its table is missing, its code column
      is unusable, no row carries the code, or its category is unknown. */
  ghost predicate Skipped(cfg: Config, data: map<string, Table>, target: string) {
    cfg.file !in data
    || !CodeColumnUsable(cfg, data[cfg.file])
    || FirstMatch(data[cfg.file].rows, cfg.colCode.value, SafeStr(Text(target))).None?
    || CategoryOf(cfg) !in {"weekly", "cumulative"}
  }

  /** One iteration of the loop of `calculate_agent_performance`. */
  function EvaluateOne(cfg: Config, data: map<string, Table>, target: string): Option<PerfResult> {
    if cfg.file !in data then None
    else
      var df := data[cfg.file];
      if !CodeColumnUsable(cfg, df) then None
      else
        match FirstMatch(df.rows, cfg.colCode.value, SafeStr(Text(target)))
        case None => None
        case Some(i) => EvaluateRow(cfg, df, df.rows[i])
  }

  /** A scheme yields a record exactly when it is not skipped, and the record carries the
      scheme's name, description and category. */
  lemma EvaluateOneSpec(cfg: Config, data: map<string, Table>, target: string)
    ensures EvaluateOne(cfg, data, target).None? <==> Skipped(cfg, data, target)
    ensures EvaluateOne(cfg, data, target).Some? ==>
      var r := EvaluateOne(cfg, data, target).value;
      r.name == cfg.name && r.desc == cfg.desc && r.Category() == CategoryOf(cfg)
  {
  }

  function OptionToSeq<U>(r: Option<U>): seq<U> {
    if r.Some? then [r.value] else []
  }

  /** The values a partial function yields over a sequence, in order. */
  function Keep<T, U>(s: seq<T>, f: T -> Option<U>): seq<U> {
    if s == [] then [] else Keep(s[..|s| - 1], f) + OptionToSeq(f(s[|s| - 1]))
  }

  /** The loop body of `calculate_agent_performance` as a function value. */
  function Evaluator(data: map<string, Table>, target: string): Config -> Option<PerfResult> {
    cfg => EvaluateOne(cfg, data, target)
  }

  /** `calculated_results`: one record per scheme that is not skipped, in configuration order. */
  function Aggregate(configs: seq<Config>, data: map<string, Table>, target: string): seq<PerfResult> {
    Keep(configs, Evaluator(data, target))
  }

  /** `sum(r['prize'] for r in results)`. */
  function SumPrizes(results: seq<PerfResult>): real {
    if results == [] then 0.0 else SumPrizes(results[..|results| - 1]) + results[|results| - 1].prize
  }

  /** The entries of `s` that satisfy `p`, in order. */
  function Filter<T>(s: seq<T>, p: T -> bool): (r: seq<T>)
    ensures forall k :: 0 <= k < |r| ==> p(r[k]) && r[k] in s
  {
    if s == [] then []
    else
      var last := s[|s| - 1];
      Filter(s[..|s| - 1], p) + (if p(last) then [last] else [])
  }

  /** The test `r['category'] == cat`, as a function value. */
  function InCategory(cat: string): PerfResult -> bool {
    (r: PerfResult) => r.Category() == cat
  }

  /** The records of one category, in order (prize.py:322-323). */
  function OfCategory(results: seq<PerfResult>, cat: string): (r: seq<PerfResult>)
    ensures forall k :: 0 <= k < |r| ==> r[k].Category() == cat && r[k] in results
  {
    Filter(results, InCategory(cat))
  }

  /** prize.py:217-242 run as written: the tier loop only when the gate is open. */
  method EvaluateBridge1(name: string, desc: string, tiers: seq<Tier>,
                         valPrev: real, valCurr: real, currReq: real) returns (r: PerfResult)
    ensures r == Bridge1Result(name, desc, tiers, valPrev, valCurr, currReq)
  {
    var a: Option<Tier> := None;
    if valCurr >= currReq {
      a := ScanAchieved(tiers, valPrev);
    }
    var tierPrev, rate, prize := 0.0, 0.0, 0.0;
    if a.Some? {
      tierPrev, rate := a.value.threshold, a.value.rate;
      prize := Percent(tierPrev + currReq, rate);
    }
    var shortfallCurr := if valCurr < currReq then currReq - valCurr else 0.0;
    r := Bridge1(name, desc, valPrev, tierPrev, valCurr, currReq, rate, prize, shortfallCurr);
  }

  /** prize.py:244-274 run as written: the forward tier loop, then the reversed one. */
  method EvaluateBridge2(name: string, desc: string, tiers: seq<Tier>, valCurr: real, currReq: real)
    returns (r: PerfResult)
    ensures r == Bridge2Result(name, desc, tiers, valCurr, currReq)
  {
    var a := ScanAchieved(tiers, valCurr);
    var tier, rate, prize := 0.0, 0.0, 0.0;
    if a.Some? {
      tier, rate := a.value.threshold, a.value.rate;
    }
    if tier > 0.0 {
      prize := Percent(tier + currReq, rate);
    }
    var next := ScanNext(tiers, valCurr);
    r := Bridge2(name, desc, valCurr, tier, rate, prize, currReq, next, Shortfall(next, valCurr));
  }

  /** prize.py:276-298 run as written. */
  method EvaluateFlat(name: string, desc: string, tiers: seq<Tier>, val: real) returns (r: PerfResult)
    ensures r == FlatResult(name, desc, tiers, val)
  {
    var a := ScanAchieved(tiers, val);
    var tier, rate, prize := 0.0, 0.0, 0.0;
    if a.Some? {
      tier, rate := a.value.threshold, a.value.rate;
      prize := Percent(tier, rate);
    }
    var next := ScanNext(tiers, val);
    r := Flat(name, desc, val, tier, rate, prize, next, Shortfall(next, val));
  }

  /** The loop body of prize.py:203-314 for one scheme, with the tier loops run as loops. */
  method EvaluateConfig(cfg: Config, data: map<string, Table>, target: string)
    returns (r: Option<PerfResult>)
    ensures r == EvaluateOne(cfg, data, target)
  {
    if cfg.file !in data { return None; }
    var df := data[cfg.file];
    if !CodeColumnUsable(cfg, df) { return None; }
    var m := FirstMatch(df.rows, cfg.colCode.value, SafeStr(Text(target)));
    if m.None? { return None; }
    var row := df.rows[m.value];
    var cat := CategoryOf(cfg);
    if cat == "weekly" {
      var kind := KindOf(cfg);
      var p: PerfResult;
      if kind == BridgeConfirmed {
        p := EvaluateBridge1(cfg.name, cfg.desc, cfg.tiers, WeeklyValue(df, row, cfg.colValPrev),
                             WeeklyValue(df, row, cfg.colValCurr), RequirementOf(cfg));
      } else if kind == BridgeConditional {
        p := EvaluateBridge2(cfg.name, cfg.desc, cfg.tiers, WeeklyValue(df, row, cfg.colValCurr),
                             RequirementOf(cfg));
      } else {
        p := EvaluateFlat(cfg.name, cfg.desc, cfg.tiers, WeeklyValue(df, row, cfg.colVal));
      }
      r := Some(p);
    } else if cat == "cumulative" {
      r := Some(Cumulative(cfg.name, cfg.desc, PassthroughValue(df, row, cfg.colVal),
                           PassthroughValue(df, row, cfg.colPrize)));
    } else {
      r := None;
    }
  }

  /** `calculate_agent_performance(target_code)`: evaluate every scheme in order, keep the
      records of the schemes not skipped, and sum their prizes. */
  method CalculateAgentPerformance(configs: seq<Config>, data: map<string, Table>, target: string)
    returns (results: seq<PerfResult>, total: real)
    ensures results == Aggregate(configs, data, target)
    ensures total == SumPrizes(results)
  {
    results := [];
    var i := 0;
    while i < |configs|
      invariant 0 <= i <= |configs|
      invariant results == Aggregate(configs[..i], data, target)
    {
      var r := EvaluateConfig(configs[i], data, target);
      AggregateStep(configs, data, target, i);
      results := results + OptionToSeq(r);
      i := i + 1;
    }
    assert configs[..i] == configs;
    total := SumOf(results);
  }

  /** `sum(r['prize'] for r in results)` as a loop. */
  method SumOf(results: seq<PerfResult>) returns (total: real)
    ensures total == SumPrizes(results)
  {
    total := 0.0;
    var k := 0;
    while k < |results|
      invariant 0 <= k <= |results|
      invariant total == SumPrizes(results[..k])
    {
      assert results[..k + 1][..k] == results[..k];
      total := total + results[k].prize;
      k := k + 1;
    }
    assert results[..k] == results;
  }

  /** One more scheme appends its own record, if any. */
  lemma AggregateStep(configs: seq<Config>, data: map<string, Table>, target: string, i: int)
    requires 0 <= i < |configs|
    ensures Aggregate(configs[..i + 1], data, target)
      == Aggregate(configs[..i], data, target) + OptionToSeq(EvaluateOne(configs[i], data, target))
  {
    KeepStep(configs, Evaluator(data, target), i);
  }

  lemma KeepStep<T, U>(s: seq<T>, f: T -> Option<U>, i: int)
    requires 0 <= i < |s|
    ensures Keep(s[..i + 1], f) == Keep(s[..i], f) + OptionToSeq(f(s[i]))
  {
    assert s[..i + 1][..i] == s[..i];
    assert s[..i + 1][i] == s[i];
  }

  // ---------------------------------------------------------------------------
  // Properties of the tier schemes

  /** Flat tier with thresholds sorted descending: the reached tier is the largest
      threshold not above the value, and the prize is that threshold times its rate. */
  lemma FlatAchievedTier(name: string, desc: string, tiers: seq<Tier>, val: real)
    requires SortedDesc(tiers)
    requires exists i :: 0 <= i < |tiers| && tiers[i].threshold <= val
    ensures var r := FlatResult(name, desc, tiers, val);
      Tier(r.tier, r.rate) in tiers && r.tier <= val
      && (forall i :: 0 <= i < |tiers| && tiers[i].threshold <= val ==> tiers[i].threshold <= r.tier)
      && r.prize == Percent(r.tier, r.rate)
  {
    AchievedIsLargest(tiers, val);
  }

  /** Flat tier: below every threshold, tier, rate and prize are all 0. */
  lemma FlatBelowAll(name: string, desc: string, tiers: seq<Tier>, val: real)
    requires forall i :: 0 <= i < |tiers| ==> tiers[i].threshold > val
    ensures var r := FlatResult(name, desc, tiers, val);
      r.tier == 0.0 && r.rate == 0.0 && r.prize == 0.0
  {
  }

  /** The next tier is the smallest threshold above the value (or none when every
      threshold is reached), and the shortfall is the distance to it, never negative. */
  lemma FlatNextTier(name: string, desc: string, tiers: seq<Tier>, val: real)
    requires SortedDesc(tiers)
    ensures var r := FlatResult(name, desc, tiers, val);
      (r.nextTier.None? <==> forall i :: 0 <= i < |tiers| ==> tiers[i].threshold <= val)
      && (r.nextTier.Some? ==>
            val < r.nextTier.value
            && (exists j :: 0 <= j < |tiers| && tiers[j].threshold == r.nextTier.value)
            && forall i :: 0 <= i < |tiers| && val < tiers[i].threshold ==> r.nextTier.value <= tiers[i].threshold)
      && r.shortfall >= 0.0
      && (r.nextTier.Some? && r.nextTier.value != 0.0 ==> r.shortfall == r.nextTier.value - val)
      && (r.nextTier.None? ==> r.shortfall == 0.0)
  {
    NextIsSmallest(tiers, val);
  }

  /** The tier list a new weekly scheme starts with (prize.py:733), stored ascending. */
  const DefaultTiers: seq<Tier> :=
    [Tier(100000.0, 100.0), Tier(200000.0, 200.0), Tier(300000.0, 200.0), Tier(500000.0, 300.0)]

  /** Until the tier editor re-sorts it, the stored-order scan over the default list stops
      at its first entry: every value from 100000 up earns the 100000 tier at 100 percent,
      and the next tier it reports is the largest one above the value's reach. */
  lemma DefaultTiersFirstEntry(name: string, desc: string, val: real)
    requires val >= 100000.0
    ensures var r := FlatResult(name, desc, DefaultTiers, val);
      r.tier == 100000.0 && r.rate == 100.0 && r.prize == 100000.0
    ensures val < 500000.0 ==> FlatResult(name, desc, DefaultTiers, val).nextTier == Some(500000.0)
  {
    AchievedUnique(DefaultTiers, val, 0);
    if val < 500000.0 {
      assert LastUnreached(DefaultTiers, val, 3);
      NextUnique(DefaultTiers, val, 3);
    }
  }

  /** Flat tier prizes never fall as the value rises, when thresholds are sorted
      descending, rates rise with the threshold, and both are non-negative. */
  lemma FlatPrizeMonotone(tiers: seq<Tier>, lo: real, hi: real)
    requires SortedDesc(tiers)
    requires forall i, j :: 0 <= i < j < |tiers| ==> tiers[i].rate >= tiers[j].rate
    requires forall i :: 0 <= i < |tiers| ==> tiers[i].threshold >= 0.0 && tiers[i].rate >= 0.0
    requires lo <= hi
    ensures FlatResult("", "", tiers, lo).prize <= FlatResult("", "", tiers, hi).prize
  {
    var a, b := Achieved(tiers, lo), Achieved(tiers, hi);
    if a.Some? {
      var ja :| 0 <= ja < |tiers| && tiers[ja] == a.value && FirstReached(tiers, lo, ja);
      assert b.Some?;
      var jb :| 0 <= jb < |tiers| && tiers[jb] == b.value && FirstReached(tiers, hi, jb);
      assert jb <= ja;
      PercentMonotone(tiers[ja].threshold, tiers[jb].threshold, tiers[ja].rate, tiers[jb].rate);
    } else if b.Some? {
      var jb :| 0 <= jb < |tiers| && tiers[jb] == b.value && FirstReached(tiers, hi, jb);
      PercentMonotone(0.0, b.value.threshold, 0.0, b.value.rate);
    }
  }

  lemma PercentMonotone(a: real, b: real, c: real, d: real)
    requires 0.0 <= a <= b && 0.0 <= c <= d
    ensures Percent(a, c) <= Percent(b, d)
  {
    assert a * (c / 100.0) <= b * (c / 100.0);
    assert b * (c / 100.0) <= b * (d / 100.0);
  }

  /** Bridge, first period: the prize is non-zero only when the current value reaches the
      requirement, and then it is (previous tier + requirement) times the rate. The
      current-period shortfall is what is missing to the requirement, else 0. */
  lemma Bridge1Gate(name: string, desc: string, tiers: seq<Tier>, valPrev: real, valCurr: real, currReq: real)
    ensures var r := Bridge1Result(name, desc, tiers, valPrev, valCurr, currReq);
      (r.prize != 0.0 ==> valCurr >= currReq && r.prize == Percent(r.tierPrev + currReq, r.rate))
      && (valCurr < currReq ==>
            r.prize == 0.0 && r.tierPrev == 0.0 && r.rate == 0.0
            && r.shortfallCurr == currReq - valCurr && r.shortfallCurr > 0.0)
      && (valCurr >= currReq ==> r.shortfallCurr == 0.0)
  {
  }

  /** Bridge, first period, gate open and thresholds sorted descending: the previous
      period's tier is the largest threshold not above the previous value. */
  lemma Bridge1Tier(name: string, desc: string, tiers: seq<Tier>, valPrev: real, valCurr: real, currReq: real)
    requires SortedDesc(tiers)
    requires valCurr >= currReq
    requires exists i :: 0 <= i < |tiers| && tiers[i].threshold <= valPrev
    ensures var r := Bridge1Result(name, desc, tiers, valPrev, valCurr, currReq);
      Tier(r.tierPrev, r.rate) in tiers && r.tierPrev <= valPrev
      && (forall i :: 0 <= i < |tiers| && tiers[i].threshold <= valPrev ==> tiers[i].threshold <= r.tierPrev)
      && r.prize == Percent(r.tierPrev + currReq, r.rate)
  {
    AchievedIsLargest(tiers, valPrev);
  }

  /** Bridge, second period: the tier is taken on the current value, and the projected
      prize is (tier + requirement) times the rate exactly when the tier is positive. */
  lemma Bridge2Prize(name: string, desc: string, tiers: seq<Tier>, valCurr: real, currReq: real)
    requires SortedDesc(tiers)
    ensures var r := Bridge2Result(name, desc, tiers, valCurr, currReq);
      (r.tier > 0.0 ==> r.prize == Percent(r.tier + currReq, r.rate))
      && (r.tier <= 0.0 ==> r.prize == 0.0)
      && ((exists i :: 0 <= i < |tiers| && tiers[i].threshold <= valCurr) ==>
            Tier(r.tier, r.rate) in tiers && r.tier <= valCurr
            && forall i :: 0 <= i < |tiers| && tiers[i].threshold <= valCurr ==> tiers[i].threshold <= r.tier)
      && ((forall i :: 0 <= i < |tiers| ==> tiers[i].threshold > valCurr) ==> r.tier == 0.0 && r.prize == 0.0)
      && r.shortfall >= 0.0
  {
    AchievedIsLargest(tiers, valCurr);
    NextIsSmallest(tiers, valCurr);
  }

  /** The bridge requirement defaults to 100000 when the scheme does not set it. */
  lemma RequirementDefault(cfg: Config, data: map<string, Table>, target: string)
    requires cfg.currReq.None?
    requires EvaluateOne(cfg, data, target).Some?
    ensures var r := EvaluateOne(cfg, data, target).value;
      (r.Bridge1? || r.Bridge2?) ==> r.currReq == 100000.0
  {
  }

  /** A cumulative scheme copies value and prize from its columns, 0 for an unset, empty
      or absent column or an unparsable cell, and never reads its tiers. */
  lemma CumulativePassthrough(cfg: Config, data: map<string, Table>, target: string, other: seq<Tier>)
    requires CategoryOf(cfg) == "cumulative"
    requires !Skipped(cfg, data, target)
    ensures var r := EvaluateOne(cfg, data, target).value;
      var df := data[cfg.file];
      var row := df.rows[FirstMatch(df.rows, cfg.colCode.value, SafeStr(Text(target))).value];
      r == Cumulative(cfg.name, cfg.desc, PassthroughValue(df, row, cfg.colVal), PassthroughValue(df, row, cfg.colPrize))
      && EvaluateOne(cfg.(tiers := other), data, target) == EvaluateOne(cfg, data, target)
  {
  }

  // ---------------------------------------------------------------------------
  // Properties of the aggregation

  /** Aggregating a concatenation of configuration lists concatenates the results:
      results keep configuration order and each scheme adds at most one record. */
  lemma AggregateConcat(a: seq<Config>, b: seq<Config>, data: map<string, Table>, target: string)
    ensures Aggregate(a + b, data, target) == Aggregate(a, data, target) + Aggregate(b, data, target)
  {
    KeepConcat(a, b, Evaluator(data, target));
  }

  lemma {:induction false} KeepConcat<T, U>(a: seq<T>, b: seq<T>, f: T -> Option<U>)
    ensures Keep(a + b, f) == Keep(a, f) + Keep(b, f)
    decreases |b|
  {
    if b == [] {
      assert a + b == a;
    } else {
      var b', l := b[..|b| - 1], b[|b| - 1];
      assert (a + b)[..|a + b| - 1] == a + b';
      assert (a + b)[|a + b| - 1] == l;
      KeepConcat(a, b', f);
    }
  }

  /** At most one record per scheme, and a single scheme yields exactly its own record. */
  lemma AggregateAtMostOne(configs: seq<Config>, data: map<string, Table>, target: string)
    ensures |Aggregate(configs, data, target)| <= |configs|
    ensures forall k :: 0 <= k < |configs| ==>
      Aggregate([configs[k]], data, target) == OptionToSeq(EvaluateOne(configs[k], data, target))
  {
    var f := Evaluator(data, target);
    KeepLength(configs, f);
    forall k | 0 <= k < |configs|
      ensures Keep([configs[k]], f) == OptionToSeq(f(configs[k]))
    {
      assert [configs[k]][..0] == [];
    }
  }

  lemma {:induction false} KeepLength<T, U>(s: seq<T>, f: T -> Option<U>)
    ensures |Keep(s, f)| <= |s|
  {
    if s != [] {
      KeepLength(s[..|s| - 1], f);
    }
  }

  /** No record at all exactly when every scheme is skipped. */
  lemma AggregateEmptyIff(configs: seq<Config>, data: map<string, Table>, target: string)
    ensures Aggregate(configs, data, target) == [] <==>
      forall k :: 0 <= k < |configs| ==> Skipped(configs[k], data, target)
  {
    var f := Evaluator(data, target);
    KeepNoneIff(configs, f);
    forall k | 0 <= k < |configs|
      ensures f(configs[k]).None? <==> Skipped(configs[k], data, target)
    {
      EvaluateOneSpec(configs[k], data, target);
    }
  }

  /** Nothing is kept exactly when the function yields nothing anywhere. */
  lemma {:induction false} KeepNoneIff<T, U>(s: seq<T>, f: T -> Option<U>)
    ensures Keep(s, f) == [] <==> forall k :: 0 <= k < |s| ==> f(s[k]).None?
  {
    if s != [] {
      var init, last := s[..|s| - 1], s[|s| - 1];
      KeepNoneIff(init, f);
      assert (forall k :: 0 <= k < |s| ==> f(s[k]).None?) <==>
             (forall k :: 0 <= k < |init| ==> f(init[k]).None?) && f(last).None? by {
        assert forall k :: 0 <= k < |init| ==> init[k] == s[k];
      }
    }
  }

  /** The filter keeps the order of the records: filtering a concatenation concatenates
      the filtered parts. */
  lemma OfCategoryConcat(a: seq<PerfResult>, b: seq<PerfResult>, cat: string)
    ensures OfCategory(a + b, cat) == OfCategory(a, cat) + OfCategory(b, cat)
  {
    FilterConcat(a, b, InCategory(cat));
  }

  lemma {:induction false} FilterConcat<T>(a: seq<T>, b: seq<T>, p: T -> bool)
    ensures Filter(a + b, p) == Filter(a, p) + Filter(b, p)
    decreases |b|
  {
    if b == [] {
      assert a + b == a;
    } else {
      FilterConcat(a, b[..|b| - 1], p);
      assert (a + b)[..|a + b| - 1] == a + b[..|b| - 1];
    }
  }

  /** Every record of the category is kept as often as it occurs, and no other record is. */
  lemma OfCategoryCount(results: seq<PerfResult>, cat: string, x: PerfResult)
    ensures multiset(OfCategory(results, cat))[x] == if x.Category() == cat then multiset(results)[x] else 0
  {
    FilterCount(results, InCategory(cat), x);
  }

  lemma {:induction false} FilterCount<T>(s: seq<T>, p: T -> bool, x: T)
    ensures multiset(Filter(s, p))[x] == if p(x) then multiset(s)[x] else 0
  {
    if s != [] {
      FilterCount(s[..|s| - 1], p, x);
      assert s == s[..|s| - 1] + [s[|s| - 1]];
    }
  }

  /** Every record of the category is kept. */
  lemma OfCategoryKeeps(results: seq<PerfResult>, cat: string)
    ensures forall k :: 0 <= k < |results| && results[k].Category() == cat ==> results[k] in OfCategory(results, cat)
  {
    forall k | 0 <= k < |results| && results[k].Category() == cat ensures results[k] in OfCategory(results, cat) {
      FilterCount(results, InCategory(cat), results[k]);
      assert results[k] in multiset(results);
    }
  }

  /** The weekly subtotal plus the cumulative subtotal is the total, since every record
      is of one of the two categories. */
  lemma {:induction false} SubtotalsAddUp(results: seq<PerfResult>)
    ensures SumPrizes(OfCategory(results, "weekly")) + SumPrizes(OfCategory(results, "cumulative"))
            == SumPrizes(results)
  {
    if results != [] {
      var init, last := results[..|results| - 1], results[|results| - 1];
      SubtotalsAddUp(init);
      SumAppend(OfCategory(init, "weekly"), if last.Category() == "weekly" then [last] else []);
      SumAppend(OfCategory(init, "cumulative"), if last.Category() == "cumulative" then [last] else []);
    }
  }

  lemma {:induction false} SumAppend(a: seq<PerfResult>, b: seq<PerfResult>)
    requires |b| <= 1
    ensures SumPrizes(a + b) == SumPrizes(a) + SumPrizes(b)
  {
    if b != [] {
      assert (a + b)[..|a + b| - 1] == a;
      assert SumPrizes(b) == SumPrizes([]) + b[0].prize;
    } else {
      assert a + b == a;
    }
  }
}
