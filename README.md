# Prize calculation engine of meritz_prize, modelled in Dafny

This project models the computational core of a Streamlit app that calculates incentive prizes
for insurance agents, and it proves properties of that model. The core is in two files:
`prize.py` (the prize app) and `manage.py` (a per-manager reporting view).

What is modelled:

- **Codes** (`codes.dfy`): `safe_str`, the code normaliser applied to every cell and every typed
  code.
- **Tiers** (`tiers.dfy`): a scheme's list of (threshold, rate) tiers, and the two scans over it:
  - the forward scan, which finds the first threshold a value reaches;
  - the reversed scan, which finds the next threshold above the value.
- **Engine** (`engine.dfy`): `calculate_agent_performance`. For one agent code it walks the scheme
  configurations in order.
  - A scheme is skipped when its table is missing, its code column is unusable or no row carries
    the code.
  - Otherwise the scheme evaluates the first matching row as one of four kinds: flat tier
    (구간), bridge first period (브릿지1), bridge second period (브릿지2), or cumulative
    passthrough (누계).
  - The records are collected and their prizes summed.
  - The weekly and cumulative subtotals of `render_ui_cards` are modelled here too.
- **NearMiss** (`nearmiss.dfy`): the manager view's near-miss folders.
  - It collects a manager's agents from every table.
  - Each agent's records are classified into four fixed half-open bands, and every band counts
    each agent once.
  - The list step shows one band's agents, highest value first.
- **TierText** (`tiertext.dfy`): the admin screen's tier editor.
  - It writes tiers as `int,int` lines.
  - It reads them back, skipping comma-free lines and failing as a whole on a malformed line.
  - It stores the result sorted by threshold, descending.
- **Branch** (`branch.dfy`): the agent login lookup.
  - `"0000"` means a name-only search.
  - Otherwise the branch code with `지점` removed must occur in the branch text. The match may
    not follow a digit, and optional whitespace and `지점` must come after it.
- **Manage** (`manage.dfy`): the helpers of `manage.py`:
  - goal-tier parsing;
  - `calc_shortfall`;
  - the `_xHHHH_` deletion pass;
  - the substring match on manager codes.
- Support modules:
  - `textutil.dfy`: `strip`, `split`, `join`, substring search.
  - `numtext.dfy`: `float()` on plain decimal text, `int()` truncation, `str()` of integers.
  - `sorting.dfy`: the stable sort with `reverse=True`.

Modelling choices:

- Amounts are exact `real`s. `float(str(x).replace(',', ''))` is modelled as a parser of plain
  decimal literals (an optional sign, digits, an optional fraction), and 0.0 stands for the
  exception.
- A table is a set of column names and a sequence of rows. A row maps column names to cells, and
  a cell is either missing or text.
- An optional configuration key is an `Option`.
- Loops in the source are `method`s with `while` loops proved against specification functions:
  - the scheme loop, the tier scans and the total;
  - folder counting, which updates a `counts` map in place;
  - agent collection and the near-miss list;
  - the tier-text reader;
  - the login lookup;
  - `calc_shortfall`.
- Comprehensions and expressions in the source are functions, with lemmas about them.

Where the written specification of the system and its code disagree, the model follows the code:

- `safe_str` only strips outer whitespace and drops one trailing `".0"`. It does not upper-case
  and does not decode escapes.
- `manage.py` deletes each `_xHHHH_` escape instead of decoding it into a character.
- One agent can be counted in several folders in one view: each record picks at most one band,
  but different schemes can pick different bands.
- `shortfall = next_tier - val if next_tier else 0` tests truthiness, so a next threshold of
  exactly 0 also yields a shortfall of 0 (`Engine.Shortfall`).
- The count step and the list step collect the agents differently. The count step keeps every
  non-empty code. The list step also needs a non-empty name, and that name is `"이름없음"` when
  the scheme has no name column. So an agent whose name cell is blank is counted in a folder but
  is not listed in it. `NearMiss.ListedInView` states which counted agents are listed.

## Model

| member | source | states |
|---|---|---|
| Codes.SafeStrSpec | prize.py:36-40 | A missing cell gives `""`. Otherwise the result is the stripped text, or, exactly when the stripped text ends in `".0"`, the stripped text less that one suffix. It never starts with whitespace. |
| Codes.SafeStrIntegralCode | prize.py:36-40 | A code exported as a float (`pad + "12345.0" + pad`) normalises to the integer's own text, and so does the integer text itself, so both forms match. |
| Codes.SafeStrUnchanged | prize.py:36-40 | Text with no outer whitespace and no trailing `".0"` is left unchanged. |
| Codes.SafeStrRemovesOnce | prize.py:39 | Only one `".0"` is dropped: `"12.0.0"` gives `"12.0"`, and `"12.0"` gives `"12"`. |
| NumText.ParseIntToString | prize.py:219-222 | `float()` of the text of any integer gives that integer. |
| NumText.AmountIgnoresSeparator | prize.py:219-222 | A comma inserted anywhere does not change the amount a cell reads as. |
| NumText.TruncIntegral | prize.py:792 | `int()` of an integral value gives back that value. |
| Tiers.Achieved | prize.py:280-285 | `None` exactly when every threshold is above the value. Otherwise the result is the tier at the first index whose threshold the value reaches. |
| Tiers.NextAbove | prize.py:287-291 | `None` exactly when every threshold is at most the value. Otherwise the result is the threshold at the last index still above the value. |
| Tiers.AchievedIsLargest | prize.py:280-285 | With thresholds sorted descending, the tier found is a stored tier, is within the value, and is the largest threshold within it. |
| Tiers.NextIsSmallest | prize.py:287-291 | With thresholds sorted descending, the next tier is above the value and is the smallest stored threshold above it. |
| Tiers.ScanAchieved | prize.py:228-233 | The stored-order loop with `break` computes `Achieved`. |
| Tiers.ScanNext | prize.py:261-265 | The reversed loop with `break` computes `NextAbove`. |
| Engine.KindOf | prize.py:213-216 | The kind is bridge-first-period exactly when the type contains `1기간`, and bridge-second-period exactly when it contains `2기간` but not `1기간`. A missing type is a flat tier scheme. |
| Engine.FirstMatch | prize.py:209-210 | `None` exactly when no row's normalised code equals the key. Otherwise the result is the first row that carries it. |
| Engine.EvaluateOneSpec | prize.py:203-213 | A scheme yields no record exactly when its table is missing, its code column is unusable, no row matches, or its category is neither weekly nor cumulative. A record carries the scheme's name, description and category. |
| Engine.EvaluateBridge1 | prize.py:224-242 | The bridge-first-period branch, run as loops, equals `Bridge1Result`. |
| Engine.EvaluateBridge2 | prize.py:249-272 | The bridge-second-period branch, run as loops, equals `Bridge2Result`. |
| Engine.EvaluateFlat | prize.py:279-298 | The flat tier branch, run as loops, equals `FlatResult`. |
| Engine.EvaluateConfig | prize.py:204-314 | One iteration of the scheme loop equals `EvaluateOne`. |
| Engine.CalculateAgentPerformance | prize.py:200-317 | The results are `Aggregate` of the configurations in order, and the total is the sum of their prizes. |
| Engine.SumOf | prize.py:316 | The loop computes `sum(r['prize'] for r in results)`. |
| Engine.FlatAchievedTier | prize.py:280-285 | Sorted descending, when some threshold is reached: the tier is a stored tier and the largest threshold within the value, and the prize is tier × rate / 100. |
| Engine.FlatBelowAll | prize.py:279-285 | When the value is below every threshold, tier, rate and prize are all 0. |
| Engine.FlatNextTier | prize.py:287-292 | Sorted descending: the next tier is the smallest threshold above the value, or absent when none is. The shortfall is next − value, or 0, and is never negative. |
| Engine.FlatPrizeMonotone | prize.py:280-285 | With thresholds descending, rates growing with the threshold, and both non-negative, a larger value never earns a smaller flat prize. |
| Engine.Bridge1Gate | prize.py:224-235 | A non-zero prize needs the current value to reach the requirement, and then the prize is (tier + requirement) × rate / 100. Below the requirement, prize, tier and rate are 0 and the shortfall is requirement − current > 0. Otherwise the shortfall is 0. |
| Engine.Bridge1Tier | prize.py:227-233 | With the gate open and thresholds sorted, the previous-period tier is the largest threshold within the previous value. |
| Engine.Bridge2Prize | prize.py:250-266 | The tier is taken on the current value. The prize is (tier + requirement) × rate / 100 only when the tier is strictly positive, else 0. Below every threshold, tier and prize are 0. The shortfall is never negative. |
| Engine.RequirementDefault | prize.py:224 | When the scheme sets no requirement, both bridge kinds use 100000. |
| Engine.CumulativePassthrough | prize.py:300-314 | A cumulative record copies the value and prize cells of the matching row. Its tiers are never read: replacing them changes nothing. |
| Engine.DefaultTiersFirstEntry | prize.py:733 | On the ascending default list, every value from 100000 up earns the 100000 tier at 100 percent, and below 500000 the next tier reported is 500000. |
| Engine.AggregateConcat | prize.py:203-212 | The results of two configuration lists concatenated are the two results concatenated, so records follow configuration order. |
| Engine.AggregateAtMostOne | prize.py:203-314 | Each scheme adds at most one record: a single scheme yields exactly its own optional record. |
| Engine.AggregateEmptyIff | prize.py:203-212 | There are no records exactly when every scheme is skipped. |
| Engine.OfCategory | prize.py:322-323 | The filtered records all have the category and all come from the input. |
| Engine.OfCategoryKeeps | prize.py:322-323 | Every record of the category is kept. |
| Engine.OfCategoryConcat | prize.py:322-323 | Filtering a concatenation gives the concatenation of the filtered parts, so the records keep their order. |
| Engine.OfCategoryCount | prize.py:322-323 | A record of the category occurs in the filtered list as often as in the input, and a record of another category does not occur at all. |
| Engine.SubtotalsAddUp | prize.py:322-326 | The weekly subtotal plus the cumulative subtotal is the total. |
| NearMiss.BandsDisjoint | prize.py:515-520 | The four bands are pairwise disjoint. |
| NearMiss.BandOfSpec | prize.py:537-540 | A value has a band exactly when 0 ≤ v < 500000. That band is the unique band holding it, and its target is a key of `counts`. |
| NearMiss.FindBand | prize.py:537-540 | The `break` loop over `ranges` computes `BandOf`. |
| NearMiss.SelectedSpec | prize.py:530-532 | The 구간 folders look at flat records only, the 브릿지 folders at both bridge kinds, and no folder at cumulative records. |
| NearMiss.FoldersSpec | prize.py:529-540 | Band t is in an agent's folder set exactly when some selected record's value lies in that band. The set holds only `counts` keys. |
| NearMiss.MatchedFolders | prize.py:527-540 | The loop building `matched_folders` computes `Folders`. |
| NearMiss.AddOne | prize.py:542-543 | Every key of `counts` goes up by one exactly when it is in the matched set, and the key set is unchanged. |
| NearMiss.CountNearMiss | prize.py:521-543 | The counts have exactly the four band keys, and each count is the number of agents having that folder. |
| NearMiss.CountIsAgents | prize.py:524-543 | Over distinct agents, a band's count is the size of the set of agents having the folder, and is at most the number of agents. |
| NearMiss.AgentCodesDistinct | prize.py:499-512 | The collected agent codes are distinct and non-empty. |
| NearMiss.AgentCodesMembers | prize.py:499-512 | A code is collected exactly when it is non-empty and some usable scheme table has a row managed by the manager that carries it. |
| NearMiss.CollectAgentCodes | prize.py:499-512 | The nested loops compute `AgentCodes`. |
| NearMiss.UpsertSpec | prize.py:589 | A dictionary assignment keeps the earlier keys in place and keeps the dictionary well formed. It adds at most one entry, stores the new entry when code and name are non-empty, and adds no other key. Entries for other codes are untouched. |
| NearMiss.Lookup | prize.py:589 | `None` exactly when no entry has the code. Otherwise the result is an entry with that code. |
| NearMiss.UpsertLookup | prize.py:589 | After an assignment, looking up the assigned code gives the new entry, when code and name are non-empty. Looking up any other code gives what it gave before. |
| NearMiss.AddRowInfosLookup | prize.py:583-589 | After one table's rows, the entry of a code is the one read from its last managed row with a non-empty name, or the earlier entry when there is no such row. |
| NearMiss.InfosManaged | prize.py:569-589 | The list step's dictionary has distinct keys, and every key is a non-empty code of a managed row. |
| NearMiss.AgentInfosLookup | prize.py:569-589 | The list step's dictionary holds a code exactly when some managed row of a usable scheme has that code and a non-empty name. Its entry is read from the last such row, scheme by scheme and then row by row. |
| NearMiss.CollectAgentInfos | prize.py:569-589 | The nested loops compute `AgentInfos`. |
| NearMiss.HitSpec | prize.py:600-610 | No hit exactly when no selected record's value lies in [lo, hi). Otherwise the hit is the value of the first selected record in the band: that record's value lies in [lo, hi) and no earlier selected record's does. |
| NearMiss.FirstHit | prize.py:600-610 | The loop that stops at the first hit computes `Hit`. |
| NearMiss.NearAgents | prize.py:594-616 | The list step computes `NearList`. |
| NearMiss.HitsSpec | prize.py:594-610 | Every listed entry is an agent of the dictionary with its own name, agency and hit value, and every agent with a hit is listed. |
| NearMiss.NearListSpec | prize.py:594-616 | The list is sorted by value, descending, is a permutation of the hits, has every value in the band, and lists each agent at most once. Entries of equal value keep their dictionary order. |
| NearMiss.ListedIffCounted | prize.py:537-610 | For an agent of the list step, being listed in a band is the same as having that folder in the count step. |
| NearMiss.ListedInView | prize.py:499-610 | In the manager view, a code is listed under a band exactly when two things hold: some managed row gives it a non-empty name, and the count step puts it in that band's folder. Every such code is one the count step collects. |
| TierText.ReadTiers | prize.py:794-800 | The reading loop computes `ParseTierText`: `None` on the first malformed line, else the gathered tiers sorted. |
| TierText.ParseLinesFails | prize.py:794-802 | Reading fails exactly when some line has a comma but no two parsable fields. |
| TierText.ParsedSortedDesc | prize.py:794-802 | A successful read is sorted by threshold, descending, is a permutation of the gathered tiers, keeps tiers of equal threshold in the order of their lines (which fixes the rate the forward scan picks among them), and replaces the stored tiers. A failed read leaves the configuration unchanged. |
| TierText.CommaFreeLineIgnored | prize.py:797 | Removing a line without a comma changes nothing. |
| TierText.TierLineRoundTrip | prize.py:792-799 | For integral tiers, reading the line written for a tier gives that tier. |
| TierText.RoundTrip | prize.py:792-800 | For integral tiers, reading back the serialised text gives the tiers sorted descending, and gives the very same list when they were already sorted. |
| TierText.DefaultTiersResorted | prize.py:733 | The first pass of the editor over the default list yields it in descending order. |
| Sorting.SortDescBy | prize.py:800 | The descending sort is a permutation of its input and is sorted. |
| Sorting.SortDescByStable | prize.py:800 | Stability: for every key, the elements with that key appear in the sorted output in the same order as in the input. |
| Sorting.SortDescBySorted | prize.py:800 | An input already in order comes back unchanged. |
| Sorting.SortAscendingReverses | prize.py:800 | An input in strictly ascending order comes back reversed. |
| Branch.ModeExamples | prize.py:912-922 | A padded `"0000"` checks the name only, `"지점"` alone leaves nothing to match, and `"12지점"` looks for `12`. |
| Branch.BranchMatchesSpec | prize.py:920-921 | The search finds the pattern exactly when, at some position, the code occurs there, no digit precedes it, and optional whitespace and `지점` follow it. |
| Branch.BranchExampleMatch | prize.py:920 | `"12"` matches `"강남12 지점"`. |
| Branch.BranchExampleNoMatch | prize.py:920 | `"12"` does not match `"112지점"`, because a digit precedes it. |
| Branch.MatchCodesMembers | prize.py:924-928 | A code is added from a table exactly when it is non-empty and some matching row carries it. |
| Branch.SchemeCodesSpec | prize.py:899-928 | A scheme contributes exactly the non-empty codes of its matching rows, and only when it is searched. Cumulative schemes contribute nothing. |
| Branch.CodesFoundMembers | prize.py:897-931 | A code is found exactly when a name and a branch code were typed, the code is non-empty, and some scheme contributes it. |
| Branch.FindCodes | prize.py:897-931 | The loop over the schemes computes `CodesFound`. |
| Manage.KeptSpec | manage.py:94 | The kept values are exactly the values of the tokens whose stripped form is all digits. They are integral and non-negative. |
| Manage.GoalTiersSpec | manage.py:93-95 | An empty input sets nothing. Otherwise the goals are sorted ascending and are a permutation of the kept tokens' values. |
| Manage.GoalTiersExample | manage.py:94-95 | `" 20, 10,abc"` gives `[10.0, 20.0]`. |
| Manage.CalcShortfall | manage.py:168-172 | The early-return loop computes `ShortfallOf`. |
| Manage.ShortfallFirst | manage.py:168-172 | The top is reached exactly when the value reaches every goal. Otherwise the result is the first goal above the value, with gap goal − value. |
| Manage.ShortfallSmallest | manage.py:168-172 | With ascending goals, the next goal is the smallest goal above the value and the gap is positive. An empty list means the top is reached. |
| Manage.CleanCodeChanges | manage.py:132 | The pass changes nothing exactly when the text holds no `_xHHHH_`, and it shortens the text when it holds one. |
| Manage.CleanCodeFirstEscape | manage.py:132 | Leftmost-match deletion: the text before the first escape is kept unchanged, that escape's seven characters are deleted, and cleaning continues after them. |
| Manage.CleanCodeNotIdempotent | manage.py:132 | For any four hex digits d, `"_x_x" + d + "_" + d + "_"` cleans to `"_x" + d + "_"`, which cleans to `""`. |
| Manage.ManagedRowsSpec | manage.py:134 | A row is selected exactly when the entered code occurs in its cleaned manager code. Selected rows keep table order. |
| Manage.MatchInside | manage.py:134 | A code matches wherever it occurs in the cleaned cell, including after an escape: `"123"` matches `"4123"` and `"_x0033_123"`. |
| Manage.EmptyCodeSelectsAll | manage.py:134 | An empty entered code selects every row. |

## Left out

- Streamlit widgets and page routing, the CSS and HTML blocks, the share text, and `:,.0f`
  display formatting. This is presentation.
- File upload, CSV and Excel reading, and pickle and JSON persistence. This includes
  `load_data` and its pandas merge in `manage.py`. This is I/O: the model takes the tables and
  the configuration list as parameters.
- The admin password check and the admin screens that add, delete and reorder schemes. This is
  UI state handling. The one exception is the default tier list they create, which is modelled.
- The startup pass that fills in a missing `category`. The model reads a missing category as
  weekly wherever the code does (`cfg.get('category', 'weekly')`), and as not cumulative in the
  login lookup.
- The `DataFrame.eval` filters and the classification tags of `manage.py`. They evaluate
  arbitrary admin-typed expressions.
- `pd.to_numeric(..., errors='coerce').fillna(0)` in `manage.py`. `Manage.ShortfallOf` takes
  the already numeric value.
- The goal label text `f"{t:,.0f} 구간"` and the `"최고 구간 달성"` label. `Manage.ShortfallOf`
  returns the goal itself, or `TopReached`.
- Real float semantics:
  - `float()` on exponents, `inf`, `nan`, underscores and non-ASCII digits counts as a parse
    failure;
  - amounts are exact, so there is no rounding;
  - a missing numeric cell reads as the text `"nan"`, which gives 0. In the source, that cell is
    `float("nan")`, which reaches no tier, has a next tier of `None` and a shortfall of 0, and
    falls in no near-miss band. In the model it is 0.0. Such an agent therefore lands in the
    [0, 100000) folder (prize.py:519, 538), and its shortfall is the smallest threshold above 0.
- Unicode: `str.isdigit` and the regex classes `\d` and `\s` are modelled with ASCII digits.
  Whitespace is the set `str.strip` removes.
- Regular expression metacharacters in a typed branch code. `Branch.BranchMatches` treats the
  code literally, which is exact for digit-only codes.
- In `manage.py`, `str.contains` also reads the entered code as a regular expression.
  `Manage.ManagerMatches` is a literal substring test, which is exact for digit-only codes.
- Set iteration order. `sorted(list(codes_found))` and `list(codes_found)[0]` pick a code for
  display or the next query. The model stops at the set `codes_found` and the disambiguation
  test (`Branch.NeedsDisambiguation`).
- Dictionary iteration where the order does not matter (the `counts` loop), which is modelled
  as a map. The list step keeps insertion order.
- `cfg['tiers'] = ...` mutates the configuration dictionary in place. `TierText.EditTiers`
  returns the updated configuration instead.
- A `KeyError` on a configuration without `name`, `file` or `tiers` (prize.py:228, 252, 280,
  288). Every modelled configuration has all three.
