/** Matching discharge-workbook varnames to canonical site names, the workbook's block layout,
    and the findings a discharge scenario enters for a site. */
module DischargeLookup {
  import opened Wrappers
  import opened Strings
  import opened Alignment
  import opened Netica
  import opened ExportTypes

  // ---------------------------------------------------------------------------------------
  // get_varname_map

  datatype MatchError =
    | NoSites                       // `max()` of an empty sequence
    | EmptySiteName(site: string)   // division by the length of an empty site name
    | NoGoodMatch(varname: string)    // the best match is 80% or worse

  /** The site chosen for one varname: its position in `sites`, its score and the length the
      score is divided by. */
  datatype SiteMatch = SiteMatch(site: string, index: nat, score: nat, siteLength: nat)

  /** The strings actually compared: stripped of surrounding whitespace when `strip` is set. */
  function Compared(s: string, strip: bool): (r: string)
    ensures |r| <= |s|
  {
    if strip then Strip(s) else s
  }

  /** The score of the varname against every site, in site order. */
  function SiteScores(varname: string, sites: seq<string>, strip: bool): (scores: seq<nat>)
    ensures |scores| == |sites|
    ensures forall i :: 0 <= i < |sites| ==>
      scores[i] == MaxContiguousAlignmentScore(Compared(sites[i], strip), Compared(varname, strip))
    ensures forall i :: 0 <= i < |sites| ==> scores[i] <= |Compared(sites[i], strip)|
  {
    seq(|sites|, i requires 0 <= i < |sites| =>
      MaxContiguousAlignmentScore(Compared(sites[i], strip), Compared(varname, strip)))
  }

  /** `max(enumerate(scores), key=lambda x: x[1])[0]`: scans the scores and moves to a later
      position only when its score is strictly larger. */
  function FirstArgMax(scores: seq<nat>): (i: nat)
    requires |scores| > 0
    ensures i < |scores|
  {
    if |scores| == 1 then 0
    else
      var k := FirstArgMax(scores[..|scores| - 1]);
      if scores[|scores| - 1] > scores[k] then |scores| - 1 else k
  }

  /** The position `max` picks holds the largest score, and no earlier position holds it:
      ties go to the first. */
  lemma {:induction false} FirstArgMaxIsFirstBest(scores: seq<nat>)
    requires |scores| > 0
    ensures forall j :: 0 <= j < |scores| ==> scores[j] <= scores[FirstArgMax(scores)]
    ensures forall j :: 0 <= j < FirstArgMax(scores) ==> scores[j] < scores[FirstArgMax(scores)]
    decreases |scores|
  {
    if |scores| > 1 {
      var init := scores[..|scores| - 1];
      FirstArgMaxIsFirstBest(init);
      assert forall j :: 0 <= j < |init| ==> init[j] == scores[j];
    }
  }

  /** `score / length > 0.8`, in integers. */
  predicate Accepted(score: nat, length: nat) {
    5 * score > 4 * length
  }

  /** The warning condition `match_percent < 1`. */
  predicate Warns(m: SiteMatch) {
    m.score < m.siteLength
  }

  /** The site chosen for one varname, or why there is none. */
  function MatchLabel(varname: string, sites: seq<string>, strip: bool): (r: Result<SiteMatch, MatchError>)
    ensures sites == [] ==> r == Err(NoSites)
    ensures r.Ok? ==> r.value.index < |sites| && r.value.site == sites[r.value.index]
  {
    if sites == [] then Err(NoSites)
    else
      var scores := SiteScores(varname, sites, strip);
      var i := FirstArgMax(scores);
      var length := |Compared(sites[i], strip)|;
      if length == 0 then Err(EmptySiteName(sites[i]))
      else if !Accepted(scores[i], length) then Err(NoGoodMatch(varname))
      else Ok(SiteMatch(sites[i], i, scores[i], length))
  }

  /** The site chosen is the first of the best-scoring sites; its score, divided by the
      length of the (stripped) site name, is above 0.8 and at most 1, so the warning is given
      exactly for the accepted matches that are not perfect. A varname fails only for the
      reasons listed in `MatchError`, and with some site present never for lack of sites. */
  lemma MatchLabelIsBest(varname: string, sites: seq<string>, strip: bool)
    ensures sites != [] && MatchLabel(varname, sites, strip).Err? ==> MatchLabel(varname, sites, strip).error != NoSites
    ensures var r := MatchLabel(varname, sites, strip);
      r.Ok? ==>
        && r.value.score == SiteScores(varname, sites, strip)[r.value.index]
        && (forall j :: 0 <= j < |sites| ==> SiteScores(varname, sites, strip)[j] <= r.value.score)
        && (forall j :: 0 <= j < r.value.index ==> SiteScores(varname, sites, strip)[j] < r.value.score)
        && r.value.siteLength == |Compared(r.value.site, strip)|
        && 0 < r.value.siteLength && r.value.score <= r.value.siteLength
        && Accepted(r.value.score, r.value.siteLength)
        && (Warns(r.value) <==> r.value.score != r.value.siteLength)
  {
    if sites != [] {
      FirstArgMaxIsFirstBest(SiteScores(varname, sites, strip));
      MatchLabelOkIff(varname, sites, strip);
    }
  }

  /** The 80% rule in both directions: with some site present, a varname is matched exactly
      when the first best-scoring site is non-empty and scores above 80% of its length; it
      fails on that site's empty name exactly when the name is empty, and as a bad match
      exactly when the score is 80% or less. */
  lemma MatchLabelOkIff(varname: string, sites: seq<string>, strip: bool)
    requires sites != []
    ensures var scores := SiteScores(varname, sites, strip);
      var i := FirstArgMax(scores);
      var length := |Compared(sites[i], strip)|;
      var r := MatchLabel(varname, sites, strip);
      && (r.Ok? <==> length > 0 && Accepted(scores[i], length))
      && (r == Err(EmptySiteName(sites[i])) <==> length == 0)
      && (r == Err(NoGoodMatch(varname)) <==> length > 0 && !Accepted(scores[i], length))
      && (r.Ok? ==> r.value == SiteMatch(sites[i], i, scores[i], length))
  {
  }

  /** Every varname's match, in varname order. */
  function MatchAll(varnames: seq<string>, sites: seq<string>, strip: bool): (matches: seq<Result<SiteMatch, MatchError>>)
    ensures |matches| == |varnames|
    ensures forall k :: 0 <= k < |varnames| ==> matches[k] == MatchLabel(varnames[k], sites, strip)
  {
    seq(|varnames|, k requires 0 <= k < |varnames| => MatchLabel(varnames[k], sites, strip))
  }

  /** The loop of `get_varname_map` over given matches: the first failed match aborts, and
      each match writes `site -> varname`, overwriting an earlier varname of the same site. */
  function Collect(varnames: seq<string>, matches: seq<Result<SiteMatch, MatchError>>): (r: Result<map<string, string>, MatchError>)
    requires |matches| == |varnames|
    ensures varnames == [] ==> r == Ok(map[])
    decreases |varnames|
  {
    if varnames == [] then Ok(map[])
    else
      var n := |varnames| - 1;
      match Collect(varnames[..n], matches[..n])
      case Err(e) => Err(e)
      case Ok(before) =>
        match matches[n]
        case Err(e) => Err(e)
        case Ok(m) => Ok(before[m.site := varnames[n]])
  }

  /** The dictionary `get_varname_map` returns. */
  function VarnameMap(varnames: seq<string>, sites: seq<string>, strip: bool): (r: Result<map<string, string>, MatchError>)
    ensures varnames == [] ==> r == Ok(map[])
  {
    Collect(varnames, MatchAll(varnames, sites, strip))
  }

  lemma {:induction false} CollectOkIff(varnames: seq<string>, matches: seq<Result<SiteMatch, MatchError>>)
    requires |matches| == |varnames|
    ensures Collect(varnames, matches).Ok? <==> (forall k :: 0 <= k < |matches| ==> matches[k].Ok?)
    ensures Collect(varnames, matches).Err? ==>
      exists k :: 0 <= k < |matches| && matches[k] == Err(Collect(varnames, matches).error)
        && forall j :: 0 <= j < k ==> matches[j].Ok?
    decreases |varnames|
  {
    if varnames != [] {
      var n := |varnames| - 1;
      CollectOkIff(varnames[..n], matches[..n]);
      assert forall k :: 0 <= k < n ==> matches[..n][k] == matches[k];
      if Collect(varnames[..n], matches[..n]).Err? {
        var k :| 0 <= k < n && matches[..n][k] == Err(Collect(varnames[..n], matches[..n]).error)
          && forall j :: 0 <= j < k ==> matches[..n][j].Ok?;
        assert matches[k] == Err(Collect(varnames, matches).error);
      }
    }
  }

  /** Every match's site is a key of the collected map. */
  lemma {:induction false} CollectKeysComplete(varnames: seq<string>, matches: seq<Result<SiteMatch, MatchError>>)
    requires |matches| == |varnames| && Collect(varnames, matches).Ok?
    ensures forall k :: 0 <= k < |matches| ==> matches[k].Ok? && matches[k].value.site in Collect(varnames, matches).value
    decreases |varnames|
  {
    if varnames != [] {
      var n := |varnames| - 1;
      CollectKeysComplete(varnames[..n], matches[..n]);
      assert forall k :: 0 <= k < n ==> matches[..n][k] == matches[k];
    }
  }

  /** Every key of the collected map is the site of some match and holds that match's varname. */
  lemma {:induction false} CollectKeysSound(varnames: seq<string>, matches: seq<Result<SiteMatch, MatchError>>, s: string)
    requires |matches| == |varnames| && Collect(varnames, matches).Ok?
    requires s in Collect(varnames, matches).value
    ensures exists k :: 0 <= k < |matches| && matches[k].Ok? && matches[k].value.site == s && Collect(varnames, matches).value[s] == varnames[k]
    decreases |varnames|
  {
    var n := |varnames| - 1;
    var m := Collect(varnames, matches).value;
    if s != matches[n].value.site {
      CollectKeysSound(varnames[..n], matches[..n], s);
      var k :| 0 <= k < n && matches[..n][k].Ok? && matches[..n][k].value.site == s
        && Collect(varnames[..n], matches[..n]).value[s] == varnames[..n][k];
      assert matches[k].value.site == s && m[s] == varnames[k];
    }
  }

  /** A key holds the varname of the last match that chose it. */
  lemma {:induction false} CollectLastWins(varnames: seq<string>, matches: seq<Result<SiteMatch, MatchError>>, k: nat)
    requires |matches| == |varnames| && Collect(varnames, matches).Ok?
    requires k < |matches| && matches[k].Ok?
    requires forall j :: k < j < |matches| ==> matches[j].Ok? && matches[j].value.site != matches[k].value.site
    ensures matches[k].value.site in Collect(varnames, matches).value
    ensures Collect(varnames, matches).value[matches[k].value.site] == varnames[k]
    decreases |varnames|
  {
    CollectKeysComplete(varnames, matches);
    var n := |varnames| - 1;
    if k < n {
      CollectLastWins(varnames[..n], matches[..n], k);
    }
  }

  /** The map is built exactly when every varname has a match; otherwise the error is that of
      the first varname without one. */
  lemma VarnameMapOkIff(varnames: seq<string>, sites: seq<string>, strip: bool)
    ensures VarnameMap(varnames, sites, strip).Ok?
        <==> (forall k :: 0 <= k < |varnames| ==> MatchLabel(varnames[k], sites, strip).Ok?)
    ensures VarnameMap(varnames, sites, strip).Err? ==>
      exists k :: 0 <= k < |varnames| && MatchLabel(varnames[k], sites, strip) == Err(VarnameMap(varnames, sites, strip).error)
        && forall j :: 0 <= j < k ==> MatchLabel(varnames[j], sites, strip).Ok?
  {
    CollectOkIff(varnames, MatchAll(varnames, sites, strip));
  }

  /** The site chosen for a varname that has a match. */
  function ChosenSite(varname: string, sites: seq<string>, strip: bool): string
    requires MatchLabel(varname, sites, strip).Ok?
  {
    MatchLabel(varname, sites, strip).value.site
  }

  /** What a successful map holds: the chosen site of every varname is a key, and every key
      is one of `sites`, chosen by some varname whose varname it holds. */
  lemma VarnameMapKeys(varnames: seq<string>, sites: seq<string>, strip: bool)
    requires VarnameMap(varnames, sites, strip).Ok?
    ensures forall k :: 0 <= k < |varnames| ==> MatchLabel(varnames[k], sites, strip).Ok?
    ensures forall k :: 0 <= k < |varnames| ==> ChosenSite(varnames[k], sites, strip) in VarnameMap(varnames, sites, strip).value
    ensures forall s :: s in VarnameMap(varnames, sites, strip).value ==> s in sites
    ensures forall s :: s in VarnameMap(varnames, sites, strip).value ==>
      exists k :: 0 <= k < |varnames| && ChosenSite(varnames[k], sites, strip) == s && VarnameMap(varnames, sites, strip).value[s] == varnames[k]
  {
    var ms := MatchAll(varnames, sites, strip);
    CollectKeysComplete(varnames, ms);
    forall s | s in VarnameMap(varnames, sites, strip).value
      ensures s in sites
      ensures exists k :: 0 <= k < |varnames| && ChosenSite(varnames[k], sites, strip) == s && VarnameMap(varnames, sites, strip).value[s] == varnames[k]
    {
      CollectKeysSound(varnames, ms, s);
      var k :| 0 <= k < |ms| && ms[k].Ok? && ms[k].value.site == s && Collect(varnames, ms).value[s] == varnames[k];
      assert ChosenSite(varnames[k], sites, strip) == s;
    }
  }

  /** A later varname that chooses the same site overwrites the earlier one: a site holds the
      last varname that chose it. */
  lemma VarnameMapLastWins(varnames: seq<string>, sites: seq<string>, strip: bool, k: nat)
    requires VarnameMap(varnames, sites, strip).Ok? && k < |varnames|
    requires MatchLabel(varnames[k], sites, strip).Ok?
    requires forall j :: k < j < |varnames| ==>
      MatchLabel(varnames[j], sites, strip).Ok? && ChosenSite(varnames[j], sites, strip) != ChosenSite(varnames[k], sites, strip)
    ensures ChosenSite(varnames[k], sites, strip) in VarnameMap(varnames, sites, strip).value
    ensures VarnameMap(varnames, sites, strip).value[ChosenSite(varnames[k], sites, strip)] == varnames[k]
  {
    CollectLastWins(varnames, MatchAll(varnames, sites, strip), k);
  }

  /** `get_varname_map`: the loop over the varnames that fills `var_name_map`. */
  method GetVarnameMap(varnames: seq<string>, sites: seq<string>, strip: bool) returns (r: Result<map<string, string>, MatchError>)
    ensures r == VarnameMap(varnames, sites, strip)
  {
    ghost var matches := MatchAll(varnames, sites, strip);
    ghost var result := Collect(varnames, matches);
    assert result == VarnameMap(varnames, sites, strip);
    var varNameMap: map<string, string> := map[];
    var k := 0;
    while k < |varnames|
      invariant k <= |varnames|
      invariant Collect(varnames[..k], matches[..k]) == Ok(varNameMap)
    {
      var m := MatchLabel(varnames[k], sites, strip);
      CollectStep(varnames, matches, k);
      if m.Err? {
        CollectErrorPersists(varnames, matches, k + 1);
        assert result == Err(m.error);
        return Err(m.error);
      }
      varNameMap := varNameMap[m.value.site := varnames[k]];
      k := k + 1;
    }
    assert varnames[..k] == varnames && matches[..k] == matches;
    assert result == Ok(varNameMap);
    r := Ok(varNameMap);
  }


  /** One more varname: the loop of `Collect` extended by the match at position `k`. */
  lemma CollectStep(varnames: seq<string>, matches: seq<Result<SiteMatch, MatchError>>, k: nat)
    requires |matches| == |varnames| && k < |varnames|
    requires Collect(varnames[..k], matches[..k]).Ok?
    ensures matches[k].Err? ==> Collect(varnames[..k + 1], matches[..k + 1]) == Err(matches[k].error)
    ensures matches[k].Ok? ==>
      Collect(varnames[..k + 1], matches[..k + 1]) == Ok(Collect(varnames[..k], matches[..k]).value[matches[k].value.site := varnames[k]])
  {
    assert varnames[..k + 1][..k] == varnames[..k] && matches[..k + 1][..k] == matches[..k];
  }

  /** Once a prefix of the matches fails, the whole loop fails with the same error. */
  lemma {:induction false} CollectErrorPersists(varnames: seq<string>, matches: seq<Result<SiteMatch, MatchError>>, k: nat)
    requires |matches| == |varnames| && k <= |varnames|
    requires Collect(varnames[..k], matches[..k]).Err?
    ensures Collect(varnames, matches) == Collect(varnames[..k], matches[..k])
    decreases |varnames| - k
  {
    if k < |varnames| {
      assert varnames[..k + 1][..k] == varnames[..k] && matches[..k + 1][..k] == matches[..k];
      CollectErrorPersists(varnames, matches, k + 1);
    } else {
      assert varnames[..k] == varnames && matches[..k] == matches;
    }
  }

  // ---------------------------------------------------------------------------------------
  // The workbook layout read by get_discharge_scenario_data

  const StartingColumn: int := 2
  const LastColumn: int := StartingColumn + 133
  const BlockStride: int := 5
  const Variables: seq<string> := ["DISCHARGE_YR", "DISCHARGE_LF", "DISCHARGE_HF", "DISCHARGE_FD"]

  /** The worksheet row that holds each scenario's values. */
  const ScenarioRows: map<string, int> := map["NATURAL" := 3, "PRESENT" := 4, "E-FLOW" := 5, "FUTURE" := 6]

  /** The first column of the `k`-th block of `range(starting_column, last_column, 5)`. */
  function BlockStart(k: int): int {
    StartingColumn + BlockStride * k
  }

  /** `data_blocks`: the three pairs it starts with, then `(col_start, col_start + 3)` for every
      `col_start` in `range(2, 135, 5)`, which is 2, 7, ..., 132: 27 blocks. */
  method DataBlocks() returns (blocks: seq<(int, int)>)
    ensures |blocks| == 3 + 27
    ensures blocks[..3] == [(2, 5), (7, 10), (12, 15)]
    ensures forall k :: 0 <= k < 27 ==> blocks[3 + k] == (BlockStart(k), BlockStart(k) + 3)
    ensures blocks[3] == (2, 5) && blocks[3 + 26] == (132, 135)
  {
    blocks := [(StartingColumn, StartingColumn + 3), (StartingColumn + 5, StartingColumn + 8), (StartingColumn + 10, StartingColumn + 13)];
    var colStart := StartingColumn;
    while colStart < LastColumn
      invariant 3 <= |blocks| && colStart == BlockStart(|blocks| - 3) && colStart <= LastColumn + BlockStride
      invariant blocks[..3] == [(2, 5), (7, 10), (12, 15)]
      invariant forall k :: 0 <= k < |blocks| - 3 ==> blocks[3 + k] == (BlockStart(k), BlockStart(k) + 3)
      decreases LastColumn - colStart
    {
      var colEnd := colStart + 3;
      blocks := blocks + [(colStart, colEnd)];
      colStart := colStart + BlockStride;
    }
    assert blocks[3 + 26] == (BlockStart(26), BlockStart(26) + 3);
  }

  /** `range(col_start, col_end + 1)` with `col_end = col_start + 3`. */
  function BlockColumns(colStart: int): (columns: seq<int>)
    ensures |columns| == 4
    ensures forall k :: 0 <= k < 4 ==> columns[k] == colStart + k
  {
    [colStart, colStart + 1, colStart + 2, colStart + 3]
  }

  /** `dict(zip(keys, values))`, kept as its ordered items: keys and values are paired
      position by position, up to the shorter of the two. */
  function Zip(keys: seq<string>, values: seq<StateRef>): (items: seq<(string, StateRef)>)
    ensures |items| == if |keys| < |values| then |keys| else |values|
    ensures forall k :: 0 <= k < |items| ==> items[k] == (keys[k], values[k])
  {
    if keys == [] || values == [] then []
    else [(keys[0], values[0])] + Zip(keys[1..], values[1..])
  }

  /** The record of one block in one scenario row: the values in the block's four columns,
      zipped position by position onto the four discharge variables. `sheet(row, column)`
      stands for the worksheet cell's value. */
  function BlockRecord(sheet: (int, int) -> StateRef, row: int, colStart: int): (record: seq<(string, StateRef)>)
    ensures |record| == 4
    ensures forall k :: 0 <= k < 4 ==> record[k] == (Variables[k], sheet(row, colStart + k))
  {
    var columns := BlockColumns(colStart);
    Zip(Variables, seq(4, k requires 0 <= k < 4 => sheet(row, columns[k])))
  }

  // ---------------------------------------------------------------------------------------
  // update_net_discharge_scenario

  /** What `get_discharge_scenario_data` returns: the site -> workbook-label map and, per
      scenario, per workbook label, the block's record. */
  datatype DischargeData = DischargeData(
    varnameMap: map<string, string>,
    values: map<string, map<string, seq<(string, StateRef)>>>)

  /** The data `get_discharge_scenario_data` returns, given the titles of the workbook blocks,
      the official site names and the scenario tables read from the blocks: its varname map is
      `get_varname_map(subbasins, sites, strip=False)`, whose failure it shares. */
  function ScenarioData(subbasins: seq<string>, sites: seq<string>,
                        values: map<string, map<string, seq<(string, StateRef)>>>): (r: Result<DischargeData, MatchError>)
    ensures r.Ok? <==> VarnameMap(subbasins, sites, false).Ok?
    ensures r.Ok? ==> r.value.varnameMap == VarnameMap(subbasins, sites, false).value
    ensures r.Ok? ==> r.value.values == values
  {
    var varnameMap :- VarnameMap(subbasins, sites, false);
    Ok(DischargeData(varnameMap, values))
  }

  /** In the data returned, every site of the varname map is an official site name, mapped to
      a block title that chose it, and every block title's chosen site is mapped. */
  lemma ScenarioDataSites(subbasins: seq<string>, sites: seq<string>,
                          values: map<string, map<string, seq<(string, StateRef)>>>)
    requires ScenarioData(subbasins, sites, values).Ok?
    ensures var m := ScenarioData(subbasins, sites, values).value.varnameMap;
      && (forall site :: site in m ==> site in sites && m[site] in subbasins)
      && (forall k :: 0 <= k < |subbasins| ==> MatchLabel(subbasins[k], sites, false).Ok?)
      && (forall k :: 0 <= k < |subbasins| ==> ChosenSite(subbasins[k], sites, false) in m)
  {
    var m := VarnameMap(subbasins, sites, false).value;
    VarnameMapKeys(subbasins, sites, false);
    forall site | site in m
      ensures m[site] in subbasins
    {
      var k :| 0 <= k < |subbasins| && ChosenSite(subbasins[k], sites, false) == site && m[site] == subbasins[k];
    }
  }

  datatype ScenarioError =
    | UnknownSite(site: string)              // assertion `site in varname_map`
    | UnknownScenario(scenario: JsonValue)   // assertion `scenario in discharge_values`; for a JSON
                                             // list or object that test raises TypeError instead
    | MissingRecord(subbasin: string)        // KeyError: no record for the site's label

  /** The scenario names a table of the data (only a string can be a key). */
  predicate IsScenario(scenario: JsonValue, data: DischargeData) {
    scenario.JString? && scenario.s in data.values
  }

  /** The findings `update_net_discharge_scenario` enters: the site is checked first, then the
      scenario; then every item of the site's record, in order, with `retract=True`. */
  function DischargeScenarioRequests(site: string, scenario: JsonValue, data: DischargeData): (r: Result<seq<FindingRequest>, ScenarioError>)
    ensures site !in data.varnameMap ==> r == Err(UnknownSite(site))
    ensures site in data.varnameMap && !IsScenario(scenario, data) ==> r == Err(UnknownScenario(scenario))
    ensures r.Ok? <==> site in data.varnameMap && IsScenario(scenario, data)
                       && data.varnameMap[site] in data.values[scenario.s]
    ensures r.Ok? ==> forall k :: 0 <= k < |r.value| ==> r.value[k].retract
  {
    if site !in data.varnameMap then Err(UnknownSite(site))
    else if !IsScenario(scenario, data) then Err(UnknownScenario(scenario))
    else
      var subbasin := data.varnameMap[site];
      var table := data.values[scenario.s];
      if subbasin !in table then Err(MissingRecord(subbasin))
      else
        var record := table[subbasin];
        Ok(seq(|record|, k requires 0 <= k < |record| => FindingRequest(record[k].0, record[k].1, true)))
  }

  /** For a record read from a workbook block, the scenario enters exactly four findings, on
      DISCHARGE_YR, DISCHARGE_LF, DISCHARGE_HF and DISCHARGE_FD in that order, with the block's
      four cells in column order as their values, each with `retract=True`. */
  lemma ScenarioFindingsFromBlock(site: string, scenario: string, data: DischargeData,
                                  sheet: (int, int) -> StateRef, colStart: int)
    requires site in data.varnameMap && scenario in data.values && scenario in ScenarioRows
    requires data.varnameMap[site] in data.values[scenario]
    requires data.values[scenario][data.varnameMap[site]] == BlockRecord(sheet, ScenarioRows[scenario], colStart)
    ensures DischargeScenarioRequests(site, JString(scenario), data) == Ok([
      FindingRequest("DISCHARGE_YR", sheet(ScenarioRows[scenario], colStart), true),
      FindingRequest("DISCHARGE_LF", sheet(ScenarioRows[scenario], colStart + 1), true),
      FindingRequest("DISCHARGE_HF", sheet(ScenarioRows[scenario], colStart + 2), true),
      FindingRequest("DISCHARGE_FD", sheet(ScenarioRows[scenario], colStart + 3), true)])
  {
    var row := ScenarioRows[scenario];
    var record := BlockRecord(sheet, row, colStart);
    assert record[0] == (Variables[0], sheet(row, colStart + 0));
    assert record[1] == (Variables[1], sheet(row, colStart + 1));
    assert record[2] == (Variables[2], sheet(row, colStart + 2));
    assert record[3] == (Variables[3], sheet(row, colStart + 3));
    var r := DischargeScenarioRequests(site, JString(scenario), data);
    assert r.Ok?;
    var requests := r.value;
    assert |requests| == 4;
    assert requests[0] == FindingRequest("DISCHARGE_YR", sheet(row, colStart), true);
    assert requests[1] == FindingRequest("DISCHARGE_LF", sheet(row, colStart + 1), true);
    assert requests[2] == FindingRequest("DISCHARGE_HF", sheet(row, colStart + 2), true);
    assert requests[3] == FindingRequest("DISCHARGE_FD", sheet(row, colStart + 3), true);
    assert requests == [requests[0], requests[1], requests[2], requests[3]];
  }

  /** `update_net_discharge_scenario`: the two checks, then the loop that issues one
      `enter_finding(node, value, retract=True)` per item of the site's record. */
  method UpdateNetDischargeScenario(site: string, scenario: JsonValue, data: DischargeData)
    returns (r: Result<seq<FindingRequest>, ScenarioError>)
    ensures r == DischargeScenarioRequests(site, scenario, data)
  {
    if site !in data.varnameMap {
      return Err(UnknownSite(site));
    }
    if !IsScenario(scenario, data) {
      return Err(UnknownScenario(scenario));
    }
    var subbasin := data.varnameMap[site];
    var table := data.values[scenario.s];
    if subbasin !in table {
      return Err(MissingRecord(subbasin));
    }
    var record := table[subbasin];
    var requests: seq<FindingRequest> := [];
    for k := 0 to |record|
      invariant |requests| == k
      invariant forall j :: 0 <= j < k ==> requests[j] == FindingRequest(record[j].0, record[j].1, true)
    {
      var (node, value) := record[k];
      requests := requests + [FindingRequest(node, value, true)];
    }
    assert requests == DischargeScenarioRequests(site, scenario, data).value;
    return Ok(requests);
  }
}
