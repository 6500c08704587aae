/** The admin screen's tier editor (prize.py:791-802): a scheme's tiers are shown as text,
    one `threshold,rate` line per tier, and the edited text is read back into a tier
    list sorted by threshold, highest first. Text that does not parse leaves the tiers
    as they were. */
module TierText {
  import opened TextUtil
  import opened NumText
  import opened Tiers
  import opened Sorting
  import opened Engine

  /** The sort key `x[0]`. */
  function Threshold(t: Tier): real {
    t.threshold
  }

  /** `f"{int(t[0])},{int(t[1])}"`: both numbers truncated to integers. */
  function TierLine(t: Tier): string {
    IntToString(Trunc(t.threshold)) + "," + IntToString(Trunc(t.rate))
  }

  /** The lines of the text area, one per tier in stored order. */
  function TierLines(tiers: seq<Tier>): (r: seq<string>)
    ensures |r| == |tiers|
  {
    if tiers == [] then [] else TierLines(tiers[..|tiers| - 1]) + [TierLine(tiers[|tiers| - 1])]
  }

  /** `"\n".join(...)` of the lines (prize.py:792). */
  function Serialize(tiers: seq<Tier>): string {
    Join(TierLines(tiers), '\n')
  }

  /** What one line of the edited text gives. */
  datatype LineResult = Skip | Parsed(tier: Tier) | Malformed

  /** A line without `,` is skipped; otherwise its first two comma-separated fields are read
      with `float(part.strip())`, and a field that is not a number raises. */
  function ParseLine(line: string): LineResult {
    if ',' !in line then Skip
    else
      var parts := Split(line, ',');
      assert |parts| >= 2 by { SplitWithSep(line, ','); }
      match (ParseFloat(Strip(parts[0])), ParseFloat(Strip(parts[1])))
      case (Some(a), Some(b)) => Parsed(Tier(a, b))
      case _ => Malformed
  }

  /** What each line of the text gives, in order. */
  function LineResults(lines: seq<string>): (r: seq<LineResult>)
    ensures |r| == |lines|
  {
    Map(lines, ParseLine)
  }

  /** `f` applied to each element, in order. */
  function Map<A, B>(s: seq<A>, f: A -> B): (r: seq<B>)
    ensures |r| == |s|
  {
    if s == [] then [] else Map(s[..|s| - 1], f) + [f(s[|s| - 1])]
  }

  lemma {:induction false} MapAt<A, B>(s: seq<A>, f: A -> B, k: int)
    requires 0 <= k < |s|
    ensures Map(s, f)[k] == f(s[k])
  {
    if k < |s| - 1 {
      MapAt(s[..|s| - 1], f, k);
    }
  }

  lemma {:induction false} MapConcat<A, B>(a: seq<A>, b: seq<A>, f: A -> B)
    ensures Map(a + b, f) == Map(a, f) + Map(b, f)
  {
    if b == [] {
      assert a + b == a;
    } else {
      MapConcat(a, b[..|b| - 1], f);
      assert (a + b)[..|a + b| - 1] == a + b[..|b| - 1];
      assert (a + b)[|a + b| - 1] == b[|b| - 1];
    }
  }

  /** One pass of the loop body: append a parsed tier, or fail for good. */
  function Extend(acc: Option<seq<Tier>>, line: LineResult): Option<seq<Tier>> {
    match acc
    case None => None
    case Some(ts) =>
      match line
      case Skip => Some(ts)
      case Parsed(t) => Some(ts + [t])
      case Malformed => None
  }

  /** `new_tiers` after the loop, or `None` when some line raised. */
  function Collect(rs: seq<LineResult>): Option<seq<Tier>> {
    if rs == [] then Some([]) else Extend(Collect(rs[..|rs| - 1]), rs[|rs| - 1])
  }

  /** The lines of `tier_input.strip().split('\n')`. */
  function InputLines(input: string): seq<string> {
    Split(Strip(input), '\n')
  }

  /** The tiers the loop of prize.py:795-799 gathers from `lines`. */
  function ParseLines(lines: seq<string>): Option<seq<Tier>> {
    Collect(LineResults(lines))
  }

  /** The whole read-back (prize.py:794-800): `None` for the `except` branch. */
  function ParseTierText(input: string): Option<seq<Tier>> {
    match ParseLines(InputLines(input))
    case None => None
    case Some(ts) => Some(SortDescBy(ts, Threshold))
  }

  /** `cfg['tiers']` after the editor ran: replaced by the parsed list, or left alone when
      the text did not parse. */
  function EditTiers(cfg: Config, input: string): Config {
    match ParseTierText(input)
    case None => cfg
    case Some(ts) => cfg.(tiers := ts)
  }

  /** The loop of prize.py:795-799, leaving by the exception on the first malformed line. */
  method ReadTiers(input: string) returns (r: Option<seq<Tier>>)
    ensures r == ParseTierText(input)
  {
    var lines := InputLines(input);
    var acc: seq<Tier> := [];
    var i := 0;
    while i < |lines|
      invariant 0 <= i <= |lines|
      invariant ParseLines(lines[..i]) == Some(acc)
    {
      ParseLinesStep(lines, i);
      var res := ParseLine(lines[i]);
      if res.Malformed? {
        ParseLinesMalformed(lines, i);
        return None;
      } else if res.Parsed? {
        acc := acc + [res.tier];
      }
      i := i + 1;
    }
    assert lines[..i] == lines;
    r := Some(SortDescBy(acc, Threshold));
  }

  /** One more line extends what the earlier lines gathered. */
  lemma ParseLinesStep(lines: seq<string>, i: int)
    requires 0 <= i < |lines|
    ensures ParseLines(lines[..i + 1]) == Extend(ParseLines(lines[..i]), ParseLine(lines[i]))
  {
    var rs := LineResults(lines[..i + 1]);
    assert lines[..i + 1] == lines[..i] + [lines[i]];
    MapConcat(lines[..i], [lines[i]], ParseLine);
    assert Map([lines[i]], ParseLine) == [ParseLine(lines[i])] by {
      assert [lines[i]][..0] == [];
    }
    assert rs[..|rs| - 1] == LineResults(lines[..i]);
  }

  /** A malformed line makes the whole text fail, wherever it stands. */
  lemma ParseLinesMalformed(lines: seq<string>, i: int)
    requires 0 <= i < |lines| && ParseLine(lines[i]).Malformed?
    ensures ParseLines(lines).None?
  {
    MapAt(lines, ParseLine, i);
    CollectFails(LineResults(lines));
  }

  /** Collecting fails exactly when one of the results is malformed. */
  lemma {:induction false} CollectFails(rs: seq<LineResult>)
    ensures Collect(rs).None? <==> exists i :: 0 <= i < |rs| && rs[i].Malformed?
  {
    if rs != [] {
      var init := rs[..|rs| - 1];
      CollectFails(init);
      if exists i :: 0 <= i < |init| && init[i].Malformed? {
        var i :| 0 <= i < |init| && init[i].Malformed?;
        assert rs[i] == init[i];
      }
      if exists i :: 0 <= i < |rs| && rs[i].Malformed? {
        var i :| 0 <= i < |rs| && rs[i].Malformed?;
        if i < |init| {
          assert init[i] == rs[i];
        }
      }
    }
  }

  /** The text fails exactly when one of its lines is malformed. */
  lemma ParseLinesFails(lines: seq<string>)
    ensures ParseLines(lines).None? <==> exists i :: 0 <= i < |lines| && ParseLine(lines[i]).Malformed?
  {
    var rs := LineResults(lines);
    CollectFails(rs);
    forall i | 0 <= i < |lines| ensures rs[i] == ParseLine(lines[i]) {
      MapAt(lines, ParseLine, i);
    }
  }

  /** A parsed tier list is sorted by threshold, highest first, and holds exactly the
      tiers of the text's lines, tiers of equal threshold in the order of their lines; when
      the text does not parse the scheme keeps its tiers. */
  lemma ParsedSortedDesc(cfg: Config, input: string)
    ensures ParseTierText(input).Some? ==>
      SortedDesc(ParseTierText(input).value)
      && ParseLines(InputLines(input)).Some?
      && multiset(ParseTierText(input).value) == multiset(ParseLines(InputLines(input)).value)
      && (forall t :: WithKey(ParseTierText(input).value, Threshold, t) == WithKey(ParseLines(InputLines(input)).value, Threshold, t))
      && EditTiers(cfg, input) == cfg.(tiers := ParseTierText(input).value)
    ensures ParseTierText(input).None? ==> EditTiers(cfg, input) == cfg
  {
    var p := ParseLines(InputLines(input));
    if p.Some? {
      var sorted := SortDescBy(p.value, Threshold);
      assert ParseTierText(input) == Some(sorted);
      SortedByThreshold(sorted);
      forall t ensures WithKey(sorted, Threshold, t) == WithKey(p.value, Threshold, t) {
        SortDescByStable(p.value, Threshold, t);
      }
    }
  }

  /** A skipped result changes nothing, wherever it stands. */
  lemma {:induction false} CollectSkip(x: seq<LineResult>, y: seq<LineResult>)
    ensures Collect(x + [Skip] + y) == Collect(x + y)
  {
    if y == [] {
      assert x + [Skip] + y == x + [Skip];
      assert (x + [Skip])[..|x + [Skip]| - 1] == x;
      assert x + y == x;
    } else {
      var y' := y[..|y| - 1];
      CollectSkip(x, y');
      assert (x + [Skip] + y)[..|x + [Skip] + y| - 1] == x + [Skip] + y';
      assert (x + y)[..|x + y| - 1] == x + y';
      assert (x + [Skip] + y)[|x + [Skip] + y| - 1] == y[|y| - 1];
      assert (x + y)[|x + y| - 1] == y[|y| - 1];
    }
  }

  /** Lines without a comma are ignored wherever they stand. */
  lemma CommaFreeLineIgnored(a: seq<string>, line: string, b: seq<string>)
    requires ',' !in line
    ensures ParseLines(a + [line] + b) == ParseLines(a + b)
  {
    MapConcat(a + [line], b, ParseLine);
    MapConcat(a, [line], ParseLine);
    MapConcat(a, b, ParseLine);
    assert LineResults([line]) == [Skip] by {
      assert [line][..0] == [];
    }
    CollectSkip(LineResults(a), LineResults(b));
  }

  /** Every tier has integer threshold and rate, so `int()` loses nothing. */
  ghost predicate AllIntegral(tiers: seq<Tier>) {
    forall k :: 0 <= k < |tiers| ==> Integral(tiers[k].threshold) && Integral(tiers[k].rate)
  }

  /** The text of an integer has no outer whitespace, no comma and no line break. */
  lemma IntTextPlain(i: int)
    ensures var s := IntToString(i);
      s != [] && !IsSpace(s[0]) && !IsSpace(s[|s| - 1]) && ',' !in s && '\n' !in s
  {
  }

  /** An integral tier's line reads back as the tier. */
  lemma TierLineRoundTrip(t: Tier)
    requires Integral(t.threshold) && Integral(t.rate)
    ensures ParseLine(TierLine(t)) == Parsed(t)
  {
    var a, b := IntToString(Trunc(t.threshold)), IntToString(Trunc(t.rate));
    IntTextPlain(Trunc(t.threshold));
    IntTextPlain(Trunc(t.rate));
    var line := TierLine(t);
    assert line == a + [','] + b;
    assert ',' in line by { assert line[|a|] == ','; }
    SplitAfterPiece(a, b, ',');
    SplitNoSep(b, ',');
    assert Split(line, ',') == [a, b];
    StripUnchanged(a);
    StripUnchanged(b);
    ParseIntToString(Trunc(t.threshold));
    ParseIntToString(Trunc(t.rate));
    TruncIntegral(t.threshold);
    TruncIntegral(t.rate);
  }

  /** The results a sequence of tiers' lines should give. */
  function AllParsed(tiers: seq<Tier>): (r: seq<LineResult>)
    ensures |r| == |tiers|
  {
    if tiers == [] then [] else AllParsed(tiers[..|tiers| - 1]) + [Parsed(tiers[|tiers| - 1])]
  }

  /** Collecting only parsed tiers gives those tiers. */
  lemma {:induction false} CollectAllParsed(tiers: seq<Tier>)
    ensures Collect(AllParsed(tiers)) == Some(tiers)
  {
    if tiers != [] {
      var init := tiers[..|tiers| - 1];
      CollectAllParsed(init);
      var rs := AllParsed(tiers);
      assert rs[..|rs| - 1] == AllParsed(init);
      assert init + [tiers[|tiers| - 1]] == tiers;
    }
  }

  /** The lines of integral tiers each read back as their tier. */
  lemma {:induction false} TierLinesResults(tiers: seq<Tier>)
    requires AllIntegral(tiers)
    ensures LineResults(TierLines(tiers)) == AllParsed(tiers)
  {
    if tiers != [] {
      var init, last := tiers[..|tiers| - 1], tiers[|tiers| - 1];
      assert AllIntegral(init) by {
        assert forall k :: 0 <= k < |init| ==> init[k] == tiers[k];
      }
      TierLinesResults(init);
      TierLineRoundTrip(last);
      var lines := TierLines(tiers);
      assert lines[..|lines| - 1] == TierLines(init);
    }
  }

  /** Integral tiers: reading the lines back gives the tiers in stored order. */
  lemma ParseTierLines(tiers: seq<Tier>)
    requires AllIntegral(tiers)
    ensures ParseLines(TierLines(tiers)) == Some(tiers)
  {
    TierLinesResults(tiers);
    CollectAllParsed(tiers);
  }

  /** Line `k` of the text is tier `k`'s line. */
  lemma {:induction false} TierLinesAt(tiers: seq<Tier>, k: int)
    requires 0 <= k < |tiers|
    ensures TierLines(tiers)[k] == TierLine(tiers[k])
  {
    if k < |tiers| - 1 {
      TierLinesAt(tiers[..|tiers| - 1], k);
    }
  }

  /** Every line of the text starts and ends with a non-blank and has no line break. */
  lemma TierLinesPlain(tiers: seq<Tier>)
    ensures forall k :: 0 <= k < |TierLines(tiers)| ==> PlainLine(TierLines(tiers)[k])
  {
    forall k | 0 <= k < |TierLines(tiers)|
      ensures PlainLine(TierLines(tiers)[k])
    {
      TierLinesAt(tiers, k);
      TierLinePlain(tiers[k]);
    }
  }

  /** A line with no outer whitespace and no line break. */
  predicate PlainLine(l: string) {
    l != [] && !IsSpace(l[0]) && !IsSpace(l[|l| - 1]) && '\n' !in l
  }

  lemma TierLinePlain(t: Tier)
    ensures PlainLine(TierLine(t))
  {
    var a, b := IntToString(Trunc(t.threshold)), IntToString(Trunc(t.rate));
    IntTextPlain(Trunc(t.threshold));
    IntTextPlain(Trunc(t.rate));
    var l := TierLine(t);
    assert l == a + [','] + b;
    assert l[0] == a[0];
    assert l[|l| - 1] == b[|b| - 1];
    assert '\n' !in l by {
      forall k | 0 <= k < |l| ensures l[k] != '\n' {
        if k < |a| { assert l[k] == a[k]; }
        else if k > |a| { assert l[k] == b[k - |a| - 1]; }
      }
    }
  }


  /** The editor's round trip: for integral tiers, reading back the text it shows gives the
      tiers sorted by threshold, highest first; for tiers already sorted that way, the
      very same list. */
  lemma RoundTrip(tiers: seq<Tier>)
    requires AllIntegral(tiers)
    ensures ParseTierText(Serialize(tiers)) == Some(SortDescBy(tiers, Threshold))
    ensures SortedDescBy(tiers, Threshold) ==> ParseTierText(Serialize(tiers)) == Some(tiers)
  {
    var lines := TierLines(tiers);
    var text := Serialize(tiers);
    if tiers == [] {
      assert text == "";
      assert Strip(text) == "";
      assert InputLines(text) == [""];
      assert LineResults([""]) == [Skip] by {
        assert [""][..0] == [];
      }
      assert Collect([Skip]) == Some([]) by {
        assert [Skip][..0] == [];
      }
    } else {
      TierLinesPlain(tiers);
      JoinFirst(lines, '\n');
      JoinLast(lines, '\n');
      StripUnchanged(text);
      SplitJoin(lines, '\n');
      ParseTierLines(tiers);
    }
    if SortedDescBy(tiers, Threshold) {
      SortDescBySorted(tiers, Threshold);
    }
  }

  /** The first pass of the tier editor over a new scheme turns the ascending default
      list (prize.py:733) into the descending one the scans expect. */
  lemma DefaultTiersResorted()
    ensures ParseTierText(Serialize(DefaultTiers)) ==
      Some([Tier(500000.0, 300.0), Tier(300000.0, 200.0), Tier(200000.0, 200.0), Tier(100000.0, 100.0)])
  {
    assert AllIntegral(DefaultTiers) by {
      assert Integral(100000.0) && Integral(200000.0) && Integral(300000.0) && Integral(500000.0);
      assert Integral(100.0) && Integral(200.0) && Integral(300.0);
    }
    RoundTrip(DefaultTiers);
    DefaultTiersSorted();
    DefaultReversed();
  }

  lemma DefaultReversed()
    ensures Reverse(DefaultTiers) ==
      [Tier(500000.0, 300.0), Tier(300000.0, 200.0), Tier(200000.0, 200.0), Tier(100000.0, 100.0)]
  {
    ReverseElements(DefaultTiers);
  }

  /** The default thresholds strictly ascend, so the descending sort reverses the list. */
  lemma DefaultTiersSorted()
    ensures SortDescBy(DefaultTiers, Threshold) == Reverse(DefaultTiers)
  {
    SortAscendingReverses(DefaultTiers, Threshold);
  }

  /** `SortDescBy` on thresholds gives the order the tier scans rely on. */
  lemma SortedByThreshold(tiers: seq<Tier>)
    requires SortedDescBy(tiers, Threshold)
    ensures SortedDesc(tiers)
  {
  }
}
