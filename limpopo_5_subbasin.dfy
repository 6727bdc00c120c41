/** The export script for the five-sub-basin Limpopo network: the column renaming, the
    validation loop that turns the configuration into findings, and the layout of the
    output columns and of the row of results. */
module Limpopo5 {
  import opened Wrappers
  import opened Strings
  import opened Netica
  import opened ExportTypes

  const ColumnNameMap: map<string, string> := map[
    "SUB_FISH_END" := "Maintaining fisheries for livelihoods",
    "SUB_VEG_END" := "Maintain plants for livelihoods",
    "LIV_VEG_END" := "Maintain plants for domestic livestock",
    "DOM_WAT_END" := "Maintain water for domestic use",
    "FLO_ATT_END" := "Flood attenuation services",
    "RIV_ASS_END" := "River assimilation capacity",
    "WAT_DIS_END" := "Maintain water borne diseases",
    "RES_RES_END" := "Resource resilience",
    "FISH_ECO_END" := "Maintain fish communities",
    "VEG_ECO_END" := "Maintain vegetation communities",
    "INV_ECO_END" := "Maintain invertebrate communities",
    "REC_SPIR_END" := "Maintain recreation and spiritual act",
    "TOURISM_END" := "Maintain tourism"]

  const ColumnMeasureMap: map<string, string> := map["mean" := "Mean", "std" := "Standard Deviation"]

  const Levels: seq<string> := ["Zero", "Low", "Med", "High"]

  const InputNodes: seq<string> := [
    "DISCHARGE_YR", "DISCHARGE_LF", "DISCHARGE_HF", "DISCHARGE_FD", "WQ_ECOSYSTEM", "NO_BARRIERS",
    "DOM_WAT_GRO", "WQ_TREATMENT", "LANDUSE_SSUP", "WAT_DIS_HUM", "WQ_PEOPLE", "WQ_LIVESTOCK"]

  const OutputNodes: seq<string> := [
    "SUB_VEG_END", "SUB_FISH_END", "LIV_VEG_END", "DOM_WAT_END", "FLO_ATT_END", "RIV_ASS_END",
    "WAT_DIS_END", "RES_RES_END", "FISH_ECO_END", "VEG_ECO_END", "INV_ECO_END", "REC_SPIR_END",
    "TOURISM_END"]

  /** Input nodes whose values are not one of the four levels; the script leaves them alone. */
  const SkipNodes: set<string> := {"DISCHARGE_LF", "DISCHARGE_HF", "DISCHARGE_YR", "DISCHARGE_FD"}

  const Country: string := "South Africa"
  const Catchment: string := "Limpopo"
  const Year: int := 2022

  // ---------------------------------------------------------------------------------------
  // column_mapper

  datatype RenameError =
    | NotOnePair(name: string)            // ValueError: `split('-')` does not give exactly two parts
    | UnknownVariable(variable: string)   // KeyError in `column_name_map`
    | UnknownMeasure(measure: string)     // KeyError in `column_measure_map`

  /** `column_mapper`: a raw name `V-m` becomes the readable name of `V` followed by the
      readable measure in parentheses. */
  function ColumnMapper(name: string): (r: Result<string, RenameError>)
    ensures r.Ok? ==> exists v, m :: v in ColumnNameMap && m in ColumnMeasureMap && name == v + "-" + m
                                     && r.value == ColumnNameMap[v] + " (" + ColumnMeasureMap[m] + ")"
    ensures '-' !in name ==> r == Err(NotOnePair(name))
  {
    var parts := Split(name, '-');
    if |parts| != 2 then Err(NotOnePair(name))
    else if parts[0] !in ColumnNameMap then Err(UnknownVariable(parts[0]))
    else if parts[1] !in ColumnMeasureMap then Err(UnknownMeasure(parts[1]))
    else
      assert name == parts[0] + "-" + parts[1] by {
        assert Join(parts, '-') == parts[0] + ['-'] + Join(parts[1..], '-');
      }
      Ok(ColumnNameMap[parts[0]] + " (" + ColumnMeasureMap[parts[1]] + ")")
  }

  /** On a name made of two dash-free parts joined by one dash, the mapper succeeds exactly
      when both parts are known, and checks the variable before the measure. */
  lemma ColumnMapperOfPair(v: string, m: string)
    requires '-' !in v && '-' !in m
    ensures ColumnMapper(v + "-" + m) ==
      if v !in ColumnNameMap then Err(UnknownVariable(v))
      else if m !in ColumnMeasureMap then Err(UnknownMeasure(m))
      else Ok(ColumnNameMap[v] + " (" + ColumnMeasureMap[m] + ")")
  {
    assert Join([v, m], '-') == v + "-" + m;
    SplitJoin([v, m], '-');
  }

  /** `df.rename(columns=column_mapper)` as written: the mapper is applied to every column, and
      the first name it cannot map raises. */
  function RenameColumns(columns: seq<string>): (r: Result<seq<string>, RenameError>)
    ensures r.Ok? <==> forall j :: 0 <= j < |columns| ==> ColumnMapper(columns[j]).Ok?
    ensures r.Ok? ==> |r.value| == |columns|
    ensures r.Ok? ==> forall j :: 0 <= j < |columns| ==> r.value[j] == ColumnMapper(columns[j]).value
    ensures r.Err? ==> exists j :: 0 <= j < |columns| && ColumnMapper(columns[j]) == Err(r.error)
                                  && forall i :: 0 <= i < j ==> ColumnMapper(columns[i]).Ok?
  {
    var results := seq(|columns|, j requires 0 <= j < |columns| => ColumnMapper(columns[j]));
    assert forall j :: 0 <= j < |columns| ==> results[j] == ColumnMapper(columns[j]);
    FirstErrorOrAll(results)
  }

  /** The values of a run of calls that all succeed, or the error of the first that fails. */
  function FirstErrorOrAll<T, E>(results: seq<Result<T, E>>): (r: Result<seq<T>, E>)
    ensures r.Ok? <==> forall j :: 0 <= j < |results| ==> results[j].Ok?
    ensures r.Ok? ==> |r.value| == |results|
    ensures r.Ok? ==> forall j :: 0 <= j < |results| ==> r.value[j] == results[j].value
    ensures r.Err? ==> exists j :: 0 <= j < |results| && results[j] == Err(r.error)
                                  && forall i :: 0 <= i < j ==> results[i].Ok?
    decreases |results|
  {
    if results == [] then Ok([])
    else if results[0].Err? then Err(results[0].error)
    else
      var rest := FirstErrorOrAll(results[1..]);
      assert forall j :: 0 < j < |results| ==> results[j] == results[1..][j - 1];
      if rest.Err? then
        assert exists j :: 0 <= j < |results| && results[j] == Err(rest.error)
                          && forall i :: 0 <= i < j ==> results[i].Ok?;
        Err(rest.error)
      else Ok([results[0].value] + rest.value)
  }

  /** The merged frame's columns start with the shape file's `latitude`, which has no dash:
      the rename as written always raises there. */
  lemma RenameFailsOnLatitude(rest: seq<string>)
    ensures RenameColumns(["latitude"] + rest) == Err(NotOnePair("latitude"))
  {
    var columns := ["latitude"] + rest;
    assert columns[0] == "latitude" && '-' !in columns[0];
    assert ColumnMapper(columns[0]) == Err(NotOnePair("latitude"));
  }

  /** The evidently intended rename: names the mapper understands are made readable, every
      other name is kept. */
  function RenameKnownColumns(columns: seq<string>): (renamed: seq<string>)
    ensures |renamed| == |columns|
  {
    seq(|columns|, j requires 0 <= j < |columns| =>
      if ColumnMapper(columns[j]).Ok? then ColumnMapper(columns[j]).value else columns[j])
  }

  /** The intended rename agrees with the rename as written wherever that one succeeds, and
      keeps every dash-free name, such as the shape file's columns. */
  lemma RenameKnownColumnsAgree(columns: seq<string>)
    ensures RenameColumns(columns).Ok? ==> RenameKnownColumns(columns) == RenameColumns(columns).value
    ensures forall j :: 0 <= j < |columns| && '-' !in columns[j] ==> RenameKnownColumns(columns)[j] == columns[j]
    ensures forall j :: 0 <= j < |columns| && ColumnMapper(columns[j]).Ok? ==>
      RenameKnownColumns(columns)[j] == ColumnMapper(columns[j]).value
    ensures forall j :: 0 <= j < |columns| && ColumnMapper(columns[j]).Err? ==>
      RenameKnownColumns(columns)[j] == columns[j]
  {
  }

  /** Every output node is dash-free, quote-free and has a readable name. */
  lemma OutputNodesKnown(i: int)
    requires 0 <= i < |OutputNodes|
    ensures '-' !in OutputNodes[i] && '\'' !in OutputNodes[i] && OutputNodes[i] in ColumnNameMap
  {
  }

  // ---------------------------------------------------------------------------------------
  // The column list and the row

  /** What one output column holds: a constant field, a node's belief in one level, or the
      mean or standard deviation computed from a node's beliefs. */
  datatype Slot =
    | CountrySlot | CatchmentSlot | YearSlot
    | LevelSlot(node: string, level: string)
    | MeanSlot(node: string)
    | StdSlot(node: string)

  /** The columns of one output node: its four levels in order, then its mean and std. */
  function NodeSlots(out: string): seq<Slot> {
    seq(|Levels|, k requires 0 <= k < |Levels| => LevelSlot(out, Levels[k])) + [MeanSlot(out), StdSlot(out)]
  }

  /** The six columns of one output node, by position. */
  lemma NodeSlotsAt(out: string)
    ensures |NodeSlots(out)| == 6
    ensures forall k :: 0 <= k < 4 ==> NodeSlots(out)[k] == LevelSlot(out, Levels[k])
    ensures NodeSlots(out)[4] == MeanSlot(out) && NodeSlots(out)[5] == StdSlot(out)
  {
  }

  /** The slots of the output table: the three constant fields, then each output node's slots. */
  function Layout(outputs: seq<string>): seq<Slot>
    decreases |outputs|
  {
    if outputs == [] then [CountrySlot, CatchmentSlot, YearSlot]
    else Layout(outputs[..|outputs| - 1]) + NodeSlots(outputs[|outputs| - 1])
  }

  /** The layout has 3 + 6n columns: the constants first, then six per output node, in the
      order of the output nodes, levels first in level order, then mean, then std. */
  lemma {:induction false} LayoutPositions(outputs: seq<string>)
    ensures |Layout(outputs)| == 3 + 6 * |outputs|
    ensures Layout(outputs)[..3] == [CountrySlot, CatchmentSlot, YearSlot]
    ensures forall i, k :: 0 <= i < |outputs| && 0 <= k < 4 ==> Layout(outputs)[3 + 6 * i + k] == LevelSlot(outputs[i], Levels[k])
    ensures forall i :: 0 <= i < |outputs| ==> Layout(outputs)[3 + 6 * i + 4] == MeanSlot(outputs[i])
    ensures forall i :: 0 <= i < |outputs| ==> Layout(outputs)[3 + 6 * i + 5] == StdSlot(outputs[i])
    decreases |outputs|
  {
    if outputs != [] {
      var n := |outputs| - 1;
      var prev := outputs[..n];
      LayoutPositions(prev);
      var front, last := Layout(prev), NodeSlots(outputs[n]);
      NodeSlotsAt(outputs[n]);
      var slots := Layout(outputs);
      assert slots == front + last;
      forall i, k | 0 <= i < |outputs| && 0 <= k < 4
        ensures slots[3 + 6 * i + k] == LevelSlot(outputs[i], Levels[k])
      {
        if i < n {
          assert 3 + 6 * i + k < |front|;
          assert slots[3 + 6 * i + k] == front[3 + 6 * i + k];
          assert prev[i] == outputs[i];
        } else {
          assert 3 + 6 * i + k == |front| + k;
          assert slots[|front| + k] == last[k];
        }
      }
      forall i | 0 <= i < |outputs|
        ensures slots[3 + 6 * i + 4] == MeanSlot(outputs[i]) && slots[3 + 6 * i + 5] == StdSlot(outputs[i])
      {
        if i < n {
          assert 3 + 6 * i + 5 < |front|;
          assert slots[3 + 6 * i + 4] == front[3 + 6 * i + 4] && slots[3 + 6 * i + 5] == front[3 + 6 * i + 5];
          assert prev[i] == outputs[i];
        } else {
          assert 3 + 6 * i == |front|;
          assert slots[|front| + 4] == last[4] && slots[|front| + 5] == last[5];
        }
      }
    }
  }

  /** The header of a column. */
  function ColumnName(slot: Slot): string {
    match slot
    case CountrySlot => "Country"
    case CatchmentSlot => "Catchment"
    case YearSlot => "Year"
    case LevelSlot(node, level) => node + "-" + level
    case MeanSlot(node) => node + "-mean"
    case StdSlot(node) => node + "-std"
  }

  function ColumnNames(slots: seq<Slot>): (names: seq<string>)
    ensures |names| == |slots|
  {
    seq(|slots|, j requires 0 <= j < |slots| => ColumnName(slots[j]))
  }

  /** For the script's own output nodes the table has 81 columns. */
  lemma ColumnCount()
    ensures |ColumnNames(Layout(OutputNodes))| == 81
  {
    LayoutPositions(OutputNodes);
  }

  /** The column-building loops: the three constant headers, then for each output node its
      level columns and its `-mean` and `-std` columns. */
  method Columns(outputs: seq<string>) returns (columns: seq<string>)
    ensures columns == ColumnNames(Layout(outputs))
  {
    columns := ["Country", "Catchment", "Year"];
    for i := 0 to |outputs|
      invariant columns == ColumnNames(Layout(outputs[..i]))
    {
      var out := outputs[i];
      ghost var before := columns;
      for k := 0 to |Levels|
        invariant columns == before + seq(k, j requires 0 <= j < k => out + "-" + Levels[j])
      {
        columns := columns + [out + "-" + Levels[k]];
      }
      columns := columns + [out + "-mean"];
      columns := columns + [out + "-std"];
      assert outputs[..i + 1][..i] == outputs[..i];
      assert columns == ColumnNames(Layout(outputs[..i]) + NodeSlots(out));
    }
    assert outputs[..|outputs|] == outputs;
  }

  /** `c.replace("b'", "").replace("'", "")`. */
  function Clean(c: string): (r: string)
    ensures forall ch :: ch in r ==> ch in c
  {
    Replace(Replace(c, "b'", ""), "'", "")
  }

  /** Cleaning leaves no quote behind, and a name without quotes is left as it is. */
  lemma CleanSpec(c: string)
    ensures '\'' !in Clean(c)
    ensures '\'' !in c ==> Clean(c) == c
  {
    ReplaceRemoves(Replace(c, "b'", ""), '\'');
    if '\'' !in c {
      ReplaceAbsent(c, "b'", "", '\'');
      ReplaceAbsent(c, "'", "", '\'');
    }
  }

  /** `columns_cleaned`. */
  function CleanColumns(columns: seq<string>): (cleaned: seq<string>)
    ensures |cleaned| == |columns|
  {
    seq(|columns|, j requires 0 <= j < |columns| => Clean(columns[j]))
  }

  /** No level name holds a quote. */
  lemma LevelsQuoteFree()
    ensures forall k :: 0 <= k < |Levels| ==> '\'' !in Levels[k]
  {
    assert '\'' !in Levels[0] && '\'' !in Levels[1] && '\'' !in Levels[2] && '\'' !in Levels[3];
  }

  /** Quote-free output nodes give quote-free column headers. */
  lemma {:induction false} LayoutQuoteFree(outputs: seq<string>)
    requires forall i :: 0 <= i < |outputs| ==> '\'' !in outputs[i]
    ensures forall j :: 0 <= j < |Layout(outputs)| ==> '\'' !in ColumnName(Layout(outputs)[j])
    decreases |outputs|
  {
    if outputs != [] {
      var n := |outputs| - 1;
      LayoutQuoteFree(outputs[..n]);
      LevelsQuoteFree();
      var slots := NodeSlots(outputs[n]);
      assert forall j :: 0 <= j < |slots| ==> '\'' !in ColumnName(slots[j]);
    }
  }

  /** The cleaning is the identity on the generated columns when the node names hold no quote. */
  lemma CleanGeneratedColumns(outputs: seq<string>)
    requires forall i :: 0 <= i < |outputs| ==> '\'' !in outputs[i]
    ensures CleanColumns(ColumnNames(Layout(outputs))) == ColumnNames(Layout(outputs))
  {
    var names := ColumnNames(Layout(outputs));
    LayoutQuoteFree(outputs);
    forall j | 0 <= j < |names|
      ensures Clean(names[j]) == names[j]
    {
      CleanSpec(names[j]);
    }
  }

  /** `OutputNodes` holds no quote. */
  lemma OutputNodesQuoteFree()
    ensures forall i :: 0 <= i < |OutputNodes| ==> '\'' !in OutputNodes[i]
  {
    forall i | 0 <= i < |OutputNodes| {
      OutputNodesKnown(i);
    }
  }

  /** `get_stats`: the mean and standard deviation the script derives from a node's four
      beliefs. Its floating-point numerics are not modelled. */
  type Summary = seq<real> -> (real, real)

  /** `get_node_belief(node, level)` on a network as it stands: the belief in a level of a
      node given by name, or why the reference does not resolve. */
  type BeliefQuery = (string, string) -> Result<real, GraphError>

  /** The belief query of a network with the findings entered so far. */
  function QueryOf(net: NeticaGraph): (query: BeliefQuery)
    reads net
    ensures forall node, level :: query(node, level) == net.GetNodeBelief(ByName(node), StateName(level))
  {
    var findings := net.findings;
    (node: string, level: string) =>
      match net.Resolve(ByName(node), StateName(level))
      case Ok(q) => Ok(net.beliefOf(findings, q))
      case Err(e) => Err(e)
  }

  /** A query of a network answers exactly for a node it has and one of that node's states. */
  lemma QueryOkIff(net: NeticaGraph, node: string, level: string)
    ensures QueryOf(net)(node, level).Ok? <==> node in net.nodeNames && level in net.nodes[net.nodeNames[node]].states
  {
    ResolveByNames(net, node, level);
  }

  /** A node's belief in each of the given levels, in order; the first reference that does not
      resolve is the error. */
  function Beliefs(query: BeliefQuery, node: string, levels: seq<string>): (r: Result<seq<real>, GraphError>)
    ensures r.Ok? ==> |r.value| == |levels|
    decreases |levels|
  {
    if levels == [] then Ok([])
    else
      var n := |levels| - 1;
      var prev :- Beliefs(query, node, levels[..n]);
      var belief :- query(node, levels[n]);
      Ok(prev + [belief])
  }

  /** The beliefs can be read exactly when every level resolves, and then each is the belief
      in its level. */
  lemma {:induction false} BeliefsSpec(query: BeliefQuery, node: string, levels: seq<string>)
    ensures Beliefs(query, node, levels).Ok? <==>
      forall k :: 0 <= k < |levels| ==> query(node, levels[k]).Ok?
    ensures Beliefs(query, node, levels).Ok? ==>
      forall k :: 0 <= k < |levels| ==> query(node, levels[k]) == Ok(Beliefs(query, node, levels).value[k])
    decreases |levels|
  {
    if levels != [] {
      var n := |levels| - 1;
      BeliefsSpec(query, node, levels[..n]);
      assert forall k :: 0 <= k < n ==> levels[..n][k] == levels[k];
    }
  }

  /** Once a prefix of the levels fails, the whole does, with the same error. */
  lemma {:induction false} BeliefsErrorPersists(query: BeliefQuery, node: string, levels: seq<string>, k: int)
    requires 0 <= k <= |levels| && Beliefs(query, node, levels[..k]).Err?
    ensures Beliefs(query, node, levels) == Beliefs(query, node, levels[..k])
    decreases |levels|
  {
    if k < |levels| {
      var n := |levels| - 1;
      assert levels[..n][..k] == levels[..k];
      BeliefsErrorPersists(query, node, levels[..n], k);
    } else {
      assert levels[..k] == levels;
    }
  }

  function Numbers(xs: seq<real>): (cells: seq<Cell>)
    ensures |cells| == |xs|
  {
    seq(|xs|, k requires 0 <= k < |xs| => Number(xs[k]))
  }

  /** The row of results: the constant fields, then for each output node its four beliefs and
      the summary of them; the first belief that cannot be read is the error. */
  function RowSpec(query: BeliefQuery, outputs: seq<string>, summarize: Summary): (r: Result<seq<Cell>, GraphError>)
    ensures r.Ok? ==> |r.value| == 3 + 6 * |outputs|
    ensures r.Ok? ==> r.value[..3] == [Text(Country), Text(Catchment), Int(Year)]
    decreases |outputs|
  {
    if outputs == [] then Ok([Text(Country), Text(Catchment), Int(Year)])
    else
      var n := |outputs| - 1;
      var prev :- RowSpec(query, outputs[..n], summarize);
      var beliefs :- Beliefs(query, outputs[n], Levels);
      var stats := summarize(beliefs);
      Ok(prev + Numbers(beliefs) + [Number(stats.0), Number(stats.1)])
  }

  /** Once a prefix of the output nodes fails, the whole row does, with the same error. */
  lemma {:induction false} RowErrorPersists(query: BeliefQuery, outputs: seq<string>, summarize: Summary, k: int)
    requires 0 <= k <= |outputs| && RowSpec(query, outputs[..k], summarize).Err?
    ensures RowSpec(query, outputs, summarize) == RowSpec(query, outputs[..k], summarize)
    decreases |outputs|
  {
    if k < |outputs| {
      var n := |outputs| - 1;
      assert outputs[..n][..k] == outputs[..k];
      RowErrorPersists(query, outputs[..n], summarize, k);
    } else {
      assert outputs[..k] == outputs;
    }
  }

  /** What the cell under a column holds. */
  function CellOf(query: BeliefQuery, summarize: Summary, slot: Slot): Result<Cell, GraphError>
  {
    match slot
    case CountrySlot => Ok(Text(Country))
    case CatchmentSlot => Ok(Text(Catchment))
    case YearSlot => Ok(Int(Year))
    case LevelSlot(node, level) =>
      var belief :- query(node, level);
      Ok(Number(belief))
    case MeanSlot(node) =>
      var beliefs :- Beliefs(query, node, Levels);
      Ok(Number(summarize(beliefs).0))
    case StdSlot(node) =>
      var beliefs :- Beliefs(query, node, Levels);
      Ok(Number(summarize(beliefs).1))
  }

  /** The row can be built exactly when every output node has every level as a state that
      resolves. */
  lemma {:induction false} RowOkIff(query: BeliefQuery, outputs: seq<string>, summarize: Summary)
    ensures RowSpec(query, outputs, summarize).Ok? <==>
      forall i, k :: 0 <= i < |outputs| && 0 <= k < |Levels| ==> query(outputs[i], Levels[k]).Ok?
    decreases |outputs|
  {
    if outputs != [] {
      var n := |outputs| - 1;
      RowOkIff(query, outputs[..n], summarize);
      BeliefsSpec(query, outputs[n], Levels);
      assert forall i :: 0 <= i < n ==> outputs[..n][i] == outputs[i];
    }
  }

  /** The row is aligned with the columns: it is as long as the column list, and each cell is
      what that column's header names. */
  lemma {:induction false} RowAligned(query: BeliefQuery, outputs: seq<string>, summarize: Summary)
    requires RowSpec(query, outputs, summarize).Ok?
    ensures |RowSpec(query, outputs, summarize).value| == |Layout(outputs)|
    ensures forall j :: 0 <= j < |Layout(outputs)| ==> CellOf(query, summarize, Layout(outputs)[j]) == Ok(RowSpec(query, outputs, summarize).value[j])
    decreases |outputs|
  {
    if outputs != [] {
      var n := |outputs| - 1;
      var prev := outputs[..n];
      RowAligned(query, prev, summarize);
      var out := outputs[n];
      BeliefsSpec(query, out, Levels);
      var row := RowSpec(query, outputs, summarize).value;
      var row0 := RowSpec(query, prev, summarize).value;
      var beliefs := Beliefs(query, out, Levels).value;
      var slots := Layout(outputs);
      assert slots == Layout(prev) + NodeSlots(out);
      assert row == row0 + Numbers(beliefs) + [Number(summarize(beliefs).0), Number(summarize(beliefs).1)];
      forall j | |row0| <= j < |slots|
        ensures CellOf(query, summarize, slots[j]) == Ok(row[j])
      {
        var k := j - |row0|;
        if k < |Levels| {
          assert slots[j] == LevelSlot(out, Levels[k]);
          assert row[j] == Number(beliefs[k]);
        }
      }
    }
  }

  /** The inner row-building loop: a node's belief in each level, in level order. */
  method NodeBeliefs(net: NeticaGraph, out: string) returns (r: Result<seq<real>, GraphError>)
    ensures r == Beliefs(QueryOf(net), out, Levels)
  {
    ghost var query := QueryOf(net);
    var beliefs: seq<real> := [];
    for k := 0 to |Levels|
      invariant Beliefs(query, out, Levels[..k]) == Ok(beliefs)
    {
      assert Levels[..k + 1][..k] == Levels[..k];
      var belief := net.GetNodeBelief(ByName(out), StateName(Levels[k]));
      assert belief == query(out, Levels[k]);
      if belief.Err? {
        BeliefsErrorPersists(query, out, Levels, k + 1);
        return Err(belief.error);
      }
      beliefs := beliefs + [belief.value];
    }
    assert Levels[..|Levels|] == Levels;
    return Ok(beliefs);
  }

  /** The row-building loops: for each output node, its four beliefs in level order and then
      the mean and std computed from them. */
  method Row(net: NeticaGraph, outputs: seq<string>, summarize: Summary) returns (r: Result<seq<Cell>, GraphError>)
    ensures r == RowSpec(QueryOf(net), outputs, summarize)
  {
    ghost var query := QueryOf(net);
    var row := [Text(Country), Text(Catchment), Int(Year)];
    for i := 0 to |outputs|
      invariant RowSpec(query, outputs[..i], summarize) == Ok(row)
    {
      var out := outputs[i];
      assert outputs[..i + 1][..i] == outputs[..i];
      var beliefs := NodeBeliefs(net, out);
      if beliefs.Err? {
        RowErrorPersists(query, outputs, summarize, i + 1);
        return Err(beliefs.error);
      }
      var stats := summarize(beliefs.value);
      row := row + Numbers(beliefs.value) + [Number(stats.0), Number(stats.1)];
    }
    assert outputs[..|outputs|] == outputs;
    return Ok(row);
  }

  // ---------------------------------------------------------------------------------------
  // Applying the configuration

  datatype ConfigError =
    | InvalidKey(key: string, value: JsonValue)     // ValueError: the key is not an input node
    | InvalidLevel(key: string, value: JsonValue)   // ValueError: the value is not a level
    | FindingFailed(error: GraphError)              // `enter_finding` could not resolve the node or state

  datatype Action = Skip | Enter | Reject(error: ConfigError)

  /** What the loop does with one entry: skip nodes first, then `None` values; any other
      entry must name an input node and give one of the levels. */
  function Classify(entry: ConfigEntry): Action {
    if entry.key in SkipNodes then Skip
    else if entry.value.JNull? then Skip
    else if entry.key !in InputNodes then Reject(InvalidKey(entry.key, entry.value))
    else if !(entry.value.JString? && entry.value.s in Levels) then Reject(InvalidLevel(entry.key, entry.value))
    else Enter
  }

  /** An entry is skipped exactly when its node is a skip node or its value is `None`; it is
      entered exactly when it is not skipped, names an input node and gives a level; every
      other entry is rejected, for its key before its value. */
  lemma ClassifySpec(entry: ConfigEntry)
    ensures Classify(entry).Skip? <==> entry.key in SkipNodes || entry.value.JNull?
    ensures Classify(entry).Enter? <==>
      entry.key !in SkipNodes && entry.key in InputNodes && entry.value.JString? && entry.value.s in Levels
    ensures Classify(entry).Reject? ==>
      Classify(entry).error == (if entry.key !in InputNodes then InvalidKey(entry.key, entry.value)
                                else InvalidLevel(entry.key, entry.value))
  {
  }

  /** The findings entered, oldest first, and the error that stopped the loop, if any. */
  datatype Outcome = Outcome(entered: seq<NamedState>, error: Option<ConfigError>)

  /** The configuration loop, entry by entry in the configuration's order. */
  function ApplyConfig(g: NeticaGraph, config: seq<ConfigEntry>): Outcome
    decreases |config|
  {
    if config == [] then Outcome([], None)
    else
      var e := config[0];
      match Classify(e)
      case Skip => ApplyConfig(g, config[1..])
      case Reject(err) => Outcome([], Some(err))
      case Enter =>
        match g.Resolve(ByName(e.key), StateName(e.value.s))
        case Err(err) => Outcome([], Some(FindingFailed(err)))
        case Ok(f) =>
          var rest := ApplyConfig(g, config[1..]);
          Outcome([f] + rest.entered, rest.error)
  }

  /** The loop over the configuration: each entry is skipped, rejected, or entered as a
      finding, until the end or the first error. */
  method ApplyConfigTo(net: NeticaGraph, config: seq<ConfigEntry>) returns (error: Option<ConfigError>)
    modifies net
    ensures net.findings == old(net.findings) + ApplyConfig(net, config).entered
    ensures error == ApplyConfig(net, config).error
  {
    ghost var entered: seq<NamedState> := [];
    ghost var total := ApplyConfig(net, config);
    var k := 0;
    while k < |config|
      invariant 0 <= k <= |config|
      invariant net.findings == old(net.findings) + entered
      invariant total == Outcome(entered + ApplyConfig(net, config[k..]).entered, ApplyConfig(net, config[k..]).error)
    {
      assert config[k..][1..] == config[k + 1..];
      ghost var here, rest := ApplyConfig(net, config[k..]), ApplyConfig(net, config[k + 1..]);
      var key, value := config[k].key, config[k].value;
      if key in SkipNodes {
        assert here == rest;
        k := k + 1;
        continue;
      }
      if !value.JNull? {
        assert entered + [] == entered;
        if key !in InputNodes {
          assert here == Outcome([], Some(InvalidKey(key, value)));
          return Some(InvalidKey(key, value));
        }
        if !(value.JString? && value.s in Levels) {
          assert here == Outcome([], Some(InvalidLevel(key, value)));
          return Some(InvalidLevel(key, value));
        }
        var r := net.EnterFinding(ByName(key), StateName(value.s));
        if r.Err? {
          assert here == Outcome([], Some(FindingFailed(r.error)));
          return Some(FindingFailed(r.error));
        }
        assert here == Outcome([r.value] + rest.entered, rest.error);
        assert entered + here.entered == (entered + [r.value]) + rest.entered;
        entered := entered + [r.value];
      } else {
        assert here == rest;
      }
      k := k + 1;
    }
    return None;
  }

  /** The entries that are not skipped, in order. */
  function Unskipped(config: seq<ConfigEntry>): (kept: seq<ConfigEntry>)
    ensures forall j :: 0 <= j < |kept| ==> !Classify(kept[j]).Skip? && kept[j] in config
    ensures forall j :: 0 <= j < |config| && !Classify(config[j]).Skip? ==> config[j] in kept
    ensures |kept| <= |config|
    decreases |config|
  {
    if config == [] then []
    else if Classify(config[0]).Skip? then Unskipped(config[1..])
    else [config[0]] + Unskipped(config[1..])
  }

  /** The kept entries keep their order: those of `a + b` are those of `a`, then those of `b`;
      a single entry is kept exactly when it is not skipped. */
  lemma {:induction false} UnskippedAppend(a: seq<ConfigEntry>, b: seq<ConfigEntry>)
    ensures Unskipped(a + b) == Unskipped(a) + Unskipped(b)
    ensures |a| == 1 ==> Unskipped(a) == if Classify(a[0]).Skip? then [] else a
    decreases |a|
  {
    if a == [] {
      assert a + b == b;
    } else {
      assert (a + b)[1..] == a[1..] + b;
      UnskippedAppend(a[1..], b);
      if |a| == 1 {
        assert a[1..] == [];
      }
    }
  }

  /** Skipped entries, whatever their position, change nothing. */
  lemma {:induction false} SkipsChangeNothing(g: NeticaGraph, config: seq<ConfigEntry>)
    ensures ApplyConfig(g, config) == ApplyConfig(g, Unskipped(config))
    decreases |config|
  {
    if config != [] {
      SkipsChangeNothing(g, config[1..]);
      if !Classify(config[0]).Skip? {
        assert ([config[0]] + Unskipped(config[1..]))[1..] == Unskipped(config[1..]);
      }
    }
  }

  /** The loop enters at most one finding per entry that is not skipped; an empty
      configuration enters nothing and stops on no error. */
  lemma {:induction false} AtMostOnePerEntry(g: NeticaGraph, config: seq<ConfigEntry>)
    ensures |ApplyConfig(g, config).entered| <= |Unskipped(config)|
    ensures config == [] ==> ApplyConfig(g, config) == Outcome([], None)
    decreases |config|
  {
    if config != [] {
      AtMostOnePerEntry(g, config[1..]);
    }
  }

  /** Whether an entry passes: it is skipped, or it is valid and its finding resolves. */
  predicate Passes(g: NeticaGraph, e: ConfigEntry) {
    match Classify(e)
    case Skip => true
    case Reject(_) => false
    case Enter => g.Resolve(ByName(e.key), StateName(e.value.s)).Ok?
  }

  /** The loop finishes without error exactly when every entry passes. */
  lemma {:induction false} NoErrorIffAllPass(g: NeticaGraph, config: seq<ConfigEntry>)
    ensures ApplyConfig(g, config).error.None? <==> forall j :: 0 <= j < |config| ==> Passes(g, config[j])
    decreases |config|
  {
    if config != [] {
      NoErrorIffAllPass(g, config[1..]);
      assert forall j :: 1 <= j < |config| ==> config[j] == config[1..][j - 1];
    }
  }

  /** The first entry that does not pass stops the loop with its error; the findings of the
      entries before it stay entered. */
  lemma {:induction false} FirstFailureStops(g: NeticaGraph, config: seq<ConfigEntry>, k: int)
    requires 0 <= k < |config| && !Passes(g, config[k])
    requires forall j :: 0 <= j < k ==> Passes(g, config[j])
    ensures ApplyConfig(g, config).entered == ApplyConfig(g, config[..k]).entered
    ensures ApplyConfig(g, config).error == Some(
      if Classify(config[k]).Reject? then Classify(config[k]).error
      else FindingFailed(g.Resolve(ByName(config[k].key), StateName(config[k].value.s)).error))
    decreases k
  {
    if k > 0 {
      FirstFailureStops(g, config[1..], k - 1);
      assert config[1..][..k - 1] == config[..k][1..];
    }
  }

  /** Every finding entered names an input node that is not skipped and a level, and comes
      from an entry of the configuration with that key and value. */
  lemma {:induction false} EnteredAreValid(g: NeticaGraph, config: seq<ConfigEntry>)
    ensures forall f :: f in ApplyConfig(g, config).entered ==>
      f.node in InputNodes && f.node !in SkipNodes && f.state in Levels &&
      exists j :: 0 <= j < |config| && config[j] == ConfigEntry(f.node, JString(f.state))
    decreases |config|
  {
    if config != [] {
      EnteredAreValid(g, config[1..]);
      assert forall j :: 1 <= j < |config| ==> config[j] == config[1..][j - 1];
      var e := config[0];
      if Classify(e).Enter? {
        ResolveByNames(g, e.key, e.value.s);
      }
    }
  }

  /** `entered` holds, one for one and in order, the resolved (node, level) of the entries
      `kept`, each of which names a level that resolves. */
  ghost predicate EntersInOrder(g: NeticaGraph, kept: seq<ConfigEntry>, entered: seq<NamedState>)
    reads g
  {
    && |entered| == |kept|
    && forall j :: 0 <= j < |kept| ==>
         && kept[j].value.JString?
         && g.Resolve(ByName(kept[j].key), StateName(kept[j].value.s)).Ok?
         && entered[j] == g.Resolve(ByName(kept[j].key), StateName(kept[j].value.s)).value
  }

  lemma EntersInOrderCons(g: NeticaGraph, e: ConfigEntry, kept: seq<ConfigEntry>, entered: seq<NamedState>)
    requires EntersInOrder(g, kept, entered)
    requires e.value.JString? && g.Resolve(ByName(e.key), StateName(e.value.s)).Ok?
    ensures EntersInOrder(g, [e] + kept, [g.Resolve(ByName(e.key), StateName(e.value.s)).value] + entered)
  {
    var k2 := [e] + kept;
    forall j | 0 < j < |k2|
      ensures k2[j] == kept[j - 1]
    {
    }
  }

  /** When every entry passes, the loop ends without error and enters exactly one finding per
      entry that is not skipped, in the configuration's order: the resolved (node, level) of
      that entry. */
  lemma {:induction false} EnteredInOrder(g: NeticaGraph, config: seq<ConfigEntry>)
    requires forall j :: 0 <= j < |config| ==> Passes(g, config[j])
    ensures ApplyConfig(g, config).error == None
    ensures EntersInOrder(g, Unskipped(config), ApplyConfig(g, config).entered)
    decreases |config|
  {
    if config != [] {
      var tail := config[1..];
      assert forall j :: 0 <= j < |tail| ==> tail[j] == config[j + 1];
      EnteredInOrder(g, tail);
      var e := config[0];
      assert Passes(g, e);
      if !Classify(e).Skip? {
        ClassifySpec(e);
        assert Unskipped(config) == [e] + Unskipped(tail);
        EntersInOrderCons(g, e, Unskipped(tail), ApplyConfig(g, tail).entered);
      }
    }
  }

  /** The findings entered before the first entry that does not pass are, in order, those of
      the entries before it that are not skipped. */
  lemma EnteredBeforeFailure(g: NeticaGraph, config: seq<ConfigEntry>, k: int)
    requires 0 <= k < |config| && !Passes(g, config[k])
    requires forall j :: 0 <= j < k ==> Passes(g, config[j])
    ensures ApplyConfig(g, config).error.Some?
    ensures EntersInOrder(g, Unskipped(config[..k]), ApplyConfig(g, config).entered)
  {
    FirstFailureStops(g, config, k);
    EnteredInOrder(g, config[..k]);
  }
}
