/** The export script for the 27-sub-basin Limpopo networks: for every site of the file map,
    the configuration is turned into finding requests for that site's own network, and one row
    of statistics is produced, aligned with the column list. */
module Limpopo27 {
  import opened Wrappers
  import opened Netica
  import opened ExportTypes
  import opened DischargeLookup

  /** The nodes reported, as (raw node name, name in the output), in the dictionary's order. */
  const OutputNodes27: seq<(string, string)> := [
    ("SUB_VEG_END", "Maintain plants for livelihoods"),
    ("SUB_FISH_END", "Maintaining fisheries for livelihoods"),
    ("LIV_VEG_END", "Maintain plants for domestic livestock"),
    ("DOM_WAT_END", "Maintain water for domestic use"),
    ("FLO_ATT_END", "Flood attenuation services"),
    ("RIV_ASS_END", "River assimilation capacity"),
    ("WAT_DIS_END", "Maintain water borne diseases"),
    ("RES_RES_END", "Resource resilience"),
    ("FISH_ECO_END", "Maintain fish communities"),
    ("VEG_ECO_END", "Maintain vegetation communities"),
    ("INV_ECO_END", "Maintain invertebrate communities"),
    ("REC_SPIR_END", "Maintain recreation and spiritual act"),
    ("TOURISM_END", "Maintain tourism")]

  /** Input nodes that are entered with `retract=True`. */
  const RetractNodes: set<string> := {"DISCHARGE_LF", "DISCHARGE_HF", "DISCHARGE_YR", "DISCHARGE_FD"}

  /** The configuration keys handled by `update_net_discharge_scenario` rather than entered. */
  const SpecialSettings: set<string> := {"DISCHARGE_SCENARIO"}

  const Country: string := "South Africa"
  const Catchment: string := "Limpopo"
  const Year: int := 2022

  // ---------------------------------------------------------------------------------------
  // Applying the configuration to one site's network

  /** The finding requests the configuration loop issues for one site, in the configuration's
      order: a special key goes to the discharge-scenario handler whatever its value, a `None`
      value is skipped, any other entry is one request retracted exactly for the retract nodes.
      The handler's first error stops the run. */
  function SiteRequests(site: string, config: seq<ConfigEntry>, data: DischargeData): (r: Result<seq<FindingRequest>, ScenarioError>)
    ensures config == [] ==> r == Ok([])
    ensures r.Ok? ==> forall q :: q in r.value && !q.retract ==> q.node !in RetractNodes
    decreases |config|
  {
    if config == [] then Ok([])
    else
      var e := config[0];
      if e.key in SpecialSettings then
        var first :- DischargeScenarioRequests(site, e.value, data);
        var rest :- SiteRequests(site, config[1..], data);
        Ok(first + rest)
      else if e.value.JNull? then SiteRequests(site, config[1..], data)
      else
        var rest :- SiteRequests(site, config[1..], data);
        Ok([FindingRequest(e.key, StateOf(e.value), e.key in RetractNodes)] + rest)
  }

  /** Requests already issued, followed by those still to come. */
  function Prepend(done: seq<FindingRequest>, r: Result<seq<FindingRequest>, ScenarioError>): (p: Result<seq<FindingRequest>, ScenarioError>)
    ensures p.Ok? <==> r.Ok?
    ensures r.Ok? ==> p == Ok(done + r.value)
    ensures r.Err? ==> p == r
  {
    if r.Ok? then Ok(done + r.value) else r
  }

  /** Prepending no requests changes nothing. */
  lemma PrependNothing(r: Result<seq<FindingRequest>, ScenarioError>)
    ensures Prepend([], r) == r
  {
    if r.Ok? {
      assert [] + r.value == r.value;
    }
  }

  /** The configuration loop for one site. */
  method ApplySiteConfig(site: string, config: seq<ConfigEntry>, data: DischargeData)
    returns (r: Result<seq<FindingRequest>, ScenarioError>)
    ensures r == SiteRequests(site, config, data)
  {
    var requests: seq<FindingRequest> := [];
    var k := 0;
    assert config[k..] == config;
    PrependNothing(SiteRequests(site, config, data));
    while k < |config|
      invariant 0 <= k <= |config|
      invariant SiteRequests(site, config, data) == Prepend(requests, SiteRequests(site, config[k..], data))
    {
      assert config[k..][1..] == config[k + 1..];
      var key, value := config[k].key, config[k].value;
      if key in SpecialSettings {
        var handled := UpdateNetDischargeScenario(site, value, data);
        if handled.Err? {
          return Err(handled.error);
        }
        ghost var rest := SiteRequests(site, config[k + 1..], data);
        assert rest.Ok? ==> requests + (handled.value + rest.value) == (requests + handled.value) + rest.value;
        requests := requests + handled.value;
      } else if !value.JNull? {
        var request := FindingRequest(key, StateOf(value), key in RetractNodes);
        ghost var rest := SiteRequests(site, config[k + 1..], data);
        assert rest.Ok? ==> requests + ([request] + rest.value) == (requests + [request]) + rest.value;
        requests := requests + [request];
      }
      k := k + 1;
    }
    assert SiteRequests(site, config[k..], data) == Ok([]);
    assert requests + [] == requests;
    return Ok(requests);
  }

  /** The requests of the entries that are not special: one per entry whose value is not
      `None`, retracted exactly for the retract nodes. */
  function PlainRequests(config: seq<ConfigEntry>): seq<FindingRequest>
    decreases |config|
  {
    if config == [] then []
    else if config[0].value.JNull? then PlainRequests(config[1..])
    else [FindingRequest(config[0].key, StateOf(config[0].value), config[0].key in RetractNodes)] + PlainRequests(config[1..])
  }

  /** Without special keys the site and the discharge data play no part: every non-`None`
      entry becomes one request, in order, and nothing can fail. */
  lemma {:induction false} NoSpecialKeys(site: string, config: seq<ConfigEntry>, data: DischargeData)
    requires forall j :: 0 <= j < |config| ==> config[j].key !in SpecialSettings
    ensures SiteRequests(site, config, data) == Ok(PlainRequests(config))
    decreases |config|
  {
    if config != [] {
      assert forall j :: 1 <= j < |config| ==> config[1..][j - 1] == config[j];
      NoSpecialKeys(site, config[1..], data);
    }
  }

  /** Each plain request is retracted exactly when its node is a retract node, and has the
      node and state of a non-`None` entry. */
  lemma {:induction false} PlainRequestsSpec(config: seq<ConfigEntry>)
    ensures forall q :: q in PlainRequests(config) ==> q.retract == (q.node in RetractNodes)
    ensures forall q :: q in PlainRequests(config) ==>
      exists j :: 0 <= j < |config| && config[j].key == q.node && !config[j].value.JNull? && StateOf(config[j].value) == q.state
    decreases |config|
  {
    if config != [] {
      PlainRequestsSpec(config[1..]);
      assert forall j :: 1 <= j < |config| ==> config[1..][j - 1] == config[j];
    }
  }

  /** The requests of a configuration are those of its first part followed by those of the
      rest: entries are handled in order and independently; an error in the first part stops
      the whole. */
  lemma {:induction false} SiteRequestsAppend(site: string, a: seq<ConfigEntry>, b: seq<ConfigEntry>, data: DischargeData)
    ensures SiteRequests(site, a + b, data) ==
      match SiteRequests(site, a, data)
      case Err(e) => Err(e)
      case Ok(first) => Prepend(first, SiteRequests(site, b, data))
    decreases |a|
  {
    if a == [] {
      assert a + b == b;
      PrependNothing(SiteRequests(site, b, data));
    } else {
      assert (a + b)[1..] == a[1..] + b;
      SiteRequestsAppend(site, a[1..], b, data);
      var rb := SiteRequests(site, b, data);
      var ra := SiteRequests(site, a[1..], data);
      if ra.Ok? && rb.Ok? {
        var e := a[0];
        if e.key in SpecialSettings {
          var h := DischargeScenarioRequests(site, e.value, data);
          if h.Ok? {
            assert h.value + (ra.value + rb.value) == (h.value + ra.value) + rb.value;
          }
        } else if !e.value.JNull? {
          var q := FindingRequest(e.key, StateOf(e.value), e.key in RetractNodes);
          assert [q] + (ra.value + rb.value) == ([q] + ra.value) + rb.value;
        }
      }
    }
  }

  /** A `DISCHARGE_SCENARIO: null` entry is not skipped: it reaches the handler, which fails,
      as no scenario table has a `None` key. */
  lemma NullScenarioFails(site: string, rest: seq<ConfigEntry>, data: DischargeData)
    ensures SiteRequests(site, [ConfigEntry("DISCHARGE_SCENARIO", JNull)] + rest, data) ==
      Err(if site in data.varnameMap then UnknownScenario(JNull) else UnknownSite(site))
  {
    assert ([ConfigEntry("DISCHARGE_SCENARIO", JNull)] + rest)[0].key in SpecialSettings;
  }

  /** A special key goes to the discharge-scenario handler whatever its value: the handler's
      error stops the run, and otherwise its requests come before those of the rest. */
  lemma SpecialKeyHandled(site: string, key: string, v: JsonValue, rest: seq<ConfigEntry>, data: DischargeData)
    requires key in SpecialSettings
    ensures SiteRequests(site, [ConfigEntry(key, v)] + rest, data) ==
      if DischargeScenarioRequests(site, v, data).Err? then Err(DischargeScenarioRequests(site, v, data).error)
      else Prepend(DischargeScenarioRequests(site, v, data).value, SiteRequests(site, rest, data))
  {
    assert ([ConfigEntry(key, v)] + rest)[1..] == rest;
  }

  // ---------------------------------------------------------------------------------------
  // The column list and the rows

  /** The column list: the four constant headers, then a mean and a standard deviation column
      for each output node, under its output name. */
  function ColumnsSpec(outputs: seq<(string, string)>): (columns: seq<string>)
    ensures |columns| == 4 + 2 * |outputs|
    ensures columns[..4] == ["Year", "Country", "Catchment", "Site Name"]
    decreases |outputs|
  {
    if outputs == [] then ["Year", "Country", "Catchment", "Site Name"]
    else
      var n := |outputs| - 1;
      ColumnsSpec(outputs[..n]) + [outputs[n].1 + " (Mean)", outputs[n].1 + " (Standard Deviation)"]
  }

  /** The column-building loop over the output names. */
  method Columns(outputs: seq<(string, string)>) returns (columns: seq<string>)
    ensures columns == ColumnsSpec(outputs)
  {
    columns := ["Year", "Country", "Catchment", "Site Name"];
    for i := 0 to |outputs|
      invariant columns == ColumnsSpec(outputs[..i])
    {
      assert outputs[..i + 1][..i] == outputs[..i];
      var outputName := outputs[i].1;
      columns := columns + [outputName + " (Mean)"];
      columns := columns + [outputName + " (Standard Deviation)"];
    }
    assert outputs[..|outputs|] == outputs;
  }

  /** `get_stats` of a node of the network read from a file, after the given requests: the
      mean and standard deviation of its beliefs. The engine and the numerics are not modelled. */
  type Evaluate = (string, seq<FindingRequest>, string) -> (real, real)

  /** A site's row: the constant fields and the site, then the mean and std of each output node. */
  function SiteRow(outputs: seq<(string, string)>, file: string, site: string, requests: seq<FindingRequest>, evaluate: Evaluate): (row: seq<Cell>)
    ensures |row| == 4 + 2 * |outputs|
    ensures row[..4] == [Int(Year), Text(Country), Text(Catchment), Text(site)]
    decreases |outputs|
  {
    if outputs == [] then [Int(Year), Text(Country), Text(Catchment), Text(site)]
    else
      var n := |outputs| - 1;
      var stats := evaluate(file, requests, outputs[n].0);
      SiteRow(outputs[..n], file, site, requests, evaluate) + [Number(stats.0), Number(stats.1)]
  }

  /** Rows and columns are aligned: both have 4 + 2n entries; the first four columns are the
      constant headers with the constants and the site under them; under the mean and std
      columns of output node `i` are that node's mean and std. */
  lemma {:induction false} RowAligned(outputs: seq<(string, string)>, file: string, site: string, requests: seq<FindingRequest>, evaluate: Evaluate)
    ensures |ColumnsSpec(outputs)| == |SiteRow(outputs, file, site, requests, evaluate)| == 4 + 2 * |outputs|
    ensures ColumnsSpec(outputs)[..4] == ["Year", "Country", "Catchment", "Site Name"]
    ensures SiteRow(outputs, file, site, requests, evaluate)[..4] == [Int(Year), Text(Country), Text(Catchment), Text(site)]
    ensures forall i :: 0 <= i < |outputs| ==>
      ColumnsSpec(outputs)[4 + 2 * i] == outputs[i].1 + " (Mean)" &&
      ColumnsSpec(outputs)[4 + 2 * i + 1] == outputs[i].1 + " (Standard Deviation)" &&
      SiteRow(outputs, file, site, requests, evaluate)[4 + 2 * i] == Number(evaluate(file, requests, outputs[i].0).0) &&
      SiteRow(outputs, file, site, requests, evaluate)[4 + 2 * i + 1] == Number(evaluate(file, requests, outputs[i].0).1)
    decreases |outputs|
  {
    if outputs != [] {
      var n := |outputs| - 1;
      RowAligned(outputs[..n], file, site, requests, evaluate);
      assert forall i :: 0 <= i < n ==> outputs[..n][i] == outputs[i];
    }
  }

  /** For the script's own output nodes there are 30 columns. */
  lemma ColumnCount()
    ensures |ColumnsSpec(OutputNodes27)| == 30
  {
    RowAligned(OutputNodes27, "", "", [], (file, requests, node) => (0.0, 0.0));
  }

  /** The rows of the run, one per file-map entry `(network file, site)`, in order: each from
      the requests of its own site applied to its own freshly read network. The first site
      whose requests fail stops the run. */
  function RowsSpec(fileMap: seq<(string, string)>, config: seq<ConfigEntry>, data: DischargeData, evaluate: Evaluate): (r: Result<seq<seq<Cell>>, ScenarioError>)
    ensures r.Ok? ==> |r.value| == |fileMap|
    decreases |fileMap|
  {
    if fileMap == [] then Ok([])
    else
      var n := |fileMap| - 1;
      var prev :- RowsSpec(fileMap[..n], config, data, evaluate);
      var requests :- SiteRequests(fileMap[n].1, config, data);
      Ok(prev + [SiteRow(OutputNodes27, fileMap[n].0, fileMap[n].1, requests, evaluate)])
  }

  /** Row `i` depends on file-map entry `i` alone: no finding carries over from one site to
      the next. The run succeeds exactly when every site's requests do. */
  lemma {:induction false} RowsPerSite(fileMap: seq<(string, string)>, config: seq<ConfigEntry>, data: DischargeData, evaluate: Evaluate)
    ensures RowsSpec(fileMap, config, data, evaluate).Ok? <==>
      forall i :: 0 <= i < |fileMap| ==> SiteRequests(fileMap[i].1, config, data).Ok?
    ensures RowsSpec(fileMap, config, data, evaluate).Ok? ==>
      |RowsSpec(fileMap, config, data, evaluate).value| == |fileMap| &&
      forall i :: 0 <= i < |fileMap| ==>
        (RowsSpec(fileMap, config, data, evaluate).value[i] ==
         SiteRow(OutputNodes27, fileMap[i].0, fileMap[i].1, SiteRequests(fileMap[i].1, config, data).value, evaluate))
    decreases |fileMap|
  {
    if fileMap != [] {
      var n := |fileMap| - 1;
      RowsPerSite(fileMap[..n], config, data, evaluate);
      assert forall i :: 0 <= i < n ==> fileMap[..n][i] == fileMap[i];
    }
  }

  /** Once a prefix of the file map fails, the whole run does, with the same error. */
  lemma {:induction false} RowsErrorPersists(fileMap: seq<(string, string)>, config: seq<ConfigEntry>, data: DischargeData, evaluate: Evaluate, k: int)
    requires 0 <= k <= |fileMap| && RowsSpec(fileMap[..k], config, data, evaluate).Err?
    ensures RowsSpec(fileMap, config, data, evaluate) == RowsSpec(fileMap[..k], config, data, evaluate)
    decreases |fileMap|
  {
    if k < |fileMap| {
      var n := |fileMap| - 1;
      assert fileMap[..n][..k] == fileMap[..k];
      RowsErrorPersists(fileMap[..n], config, data, evaluate, k);
    } else {
      assert fileMap[..k] == fileMap;
    }
  }

  /** The per-site loop: apply the configuration, then build the site's row. */
  method Rows(fileMap: seq<(string, string)>, config: seq<ConfigEntry>, data: DischargeData, evaluate: Evaluate)
    returns (r: Result<seq<seq<Cell>>, ScenarioError>)
    ensures r == RowsSpec(fileMap, config, data, evaluate)
  {
    ghost var result := RowsSpec(fileMap, config, data, evaluate);
    var rows: seq<seq<Cell>> := [];
    for i := 0 to |fileMap|
      invariant RowsSpec(fileMap[..i], config, data, evaluate) == Ok(rows)
    {
      assert fileMap[..i + 1][..i] == fileMap[..i] && fileMap[..i + 1][i] == fileMap[i];
      var (file, site) := fileMap[i];
      var requests := ApplySiteConfig(site, config, data);
      if requests.Err? {
        RowsErrorPersists(fileMap, config, data, evaluate, i + 1);
        assert result == Err(requests.error);
        return Err(requests.error);
      }
      var row := [Int(Year), Text(Country), Text(Catchment), Text(site)];
      for k := 0 to |OutputNodes27|
        invariant row == SiteRow(OutputNodes27[..k], file, site, requests.value, evaluate)
      {
        assert OutputNodes27[..k + 1][..k] == OutputNodes27[..k];
        var stats := evaluate(file, requests.value, OutputNodes27[k].0);
        row := row + [Number(stats.0), Number(stats.1)];
      }
      assert OutputNodes27[..|OutputNodes27|] == OutputNodes27;
      assert RowsSpec(fileMap[..i + 1], config, data, evaluate) == Ok(rows + [row]);
      rows := rows + [row];
    }
    assert fileMap[..|fileMap|] == fileMap;
    assert result == Ok(rows);
    return Ok(rows);
  }
}
