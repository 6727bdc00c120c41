# PROBFLO core, modelled in Dafny

PROBFLO runs Bayesian-network risk models of river flow through the Netica inference
engine. This project models the logic around the engine, not the engine itself:

- **`netica.py`, `NeticaGraph`**: resolving node and state references (by index, by name,
  or by node object) and the name→index map built when a graph is created. Entering a
  finding and reading a belief both resolve their references before calling the engine.
  The network is a fixed sequence of nodes, each a name and its state names. Beliefs are an
  uninterpreted function of the findings entered so far.
- **`discharge_lookup.py`**:
  - the fuzzy score `max_contiguous_alignment_score`;
  - `get_varname_map`, which pairs workbook labels with canonical site names;
  - the 5-column block layout of the discharge workbook, and the data
    `get_discharge_scenario_data` returns: its varname map is
    `get_varname_map(subbasins, sites, strip=False)` of the block titles and the official sites;
  - `update_net_discharge_scenario`, which turns a site and a scenario into four discharge
    findings.
- **`limpopo_5_subbasin.py`**:
  - `column_mapper` and the column rename;
  - the configuration loop that skips, rejects or enters findings;
  - the output column list, its quote cleaning, and the result row aligned with it.
- **`limpopo_27_subbasin.py`**:
  - the per-site configuration loop: special settings, `None` skipping, the per-key retract
    flag;
  - the column list, and one row per site, each from that site's own network.

Files: `wrappers.dfy` (Option/Result), `strings.dfy` (Python `strip`, `split`, `replace`),
`alignment.dfy`, `netica.dfy`, `export_types.dfy` (configuration values, finding requests,
output cells), `discharge_lookup.dfy`, `limpopo_5_subbasin.dfy`, `limpopo_27_subbasin.dfy`.

Python exceptions are `Err` values of a `Result`:
- an assertion, `KeyError`, `ValueError` or `TypeError`;
- `max()` of an empty sequence;
- a division by zero.

A loop that stops at its first exception is proved equal to a specification function that
does the same. Calls the scripts make with a `retract=` argument are modelled as the
requests `(node, value, retract)` they issue.

## Model

| member | source | states |
|---|---|---|
| Alignment.Matches | discharge_lookup.py:19 | the count of equal characters at equal positions is at most the length of either string |
| Alignment.BestShift | discharge_lookup.py:20-21 | the maximum over the shifts `0..n-1` is at least every shift's score and is reached by one of them |
| Alignment.MaxContiguousAlignmentScore | discharge_lookup.py:17-21 | the score lies between 0 and the length of the shorter string (the shift range is never empty, so it always exists) |
| Alignment.ScoreIsBestWindow | discharge_lookup.py:17-21 | the score is the best window score of the shorter string slid along the longer one, and it is reached |
| Alignment.MatchesSymmetric | discharge_lookup.py:19 | the zip count does not depend on argument order |
| Alignment.MatchesPrefix | discharge_lookup.py:19 | a string matches every position of a string that begins with it |
| Alignment.ScoreSymmetric | discharge_lookup.py:17-18 | `score(A, B) == score(B, A)`, because of the swap |
| Alignment.ScoreOfContained | discharge_lookup.py:17-21 | if the shorter string occurs contiguously in the longer, the score (in both orders) is its length |
| Alignment.ScoreSelf | discharge_lookup.py:17-21 | `score(A, A) == len(A)` |
| Strings.TrimStart | discharge_lookup.py:32 | `lstrip`: the result is a suffix, everything removed is whitespace, and the result does not start with whitespace |
| Strings.TrimEnd | discharge_lookup.py:32 | `rstrip`: the result is a prefix, everything removed is whitespace, and the result does not end with whitespace |
| Strings.Strip | discharge_lookup.py:32 | `strip()` is a slice `s[i..j]` of its input with only whitespace before `i` and from `j` on, and the slice neither starts nor ends with whitespace |
| Strings.Split | limpopo_5_subbasin.py:27 | `split('-')`: at least one part, no part holds the separator, and joining the parts with it gives the input back |
| Strings.SplitJoin | limpopo_5_subbasin.py:27 | splitting a join of separator-free parts gives the parts back |
| Strings.Replace | limpopo_5_subbasin.py:111 | `replace` introduces no character that is in neither the input nor the replacement |
| Strings.ReplaceAbsent | limpopo_5_subbasin.py:111 | `replace` leaves a string unchanged when it lacks a character of the pattern |
| Strings.ReplaceRemoves | limpopo_5_subbasin.py:111 | replacing a one-character pattern by `""` leaves none of it |
| DischargeLookup.SiteScores | discharge_lookup.py:31-34 | one score per site, in site order: score `i` is `max_contiguous_alignment_score` of site `i` against the varname, both stripped exactly when `strip` is set, and at most the compared site's length |
| DischargeLookup.FirstArgMax | discharge_lookup.py:37 | `max(enumerate(scores), key=...)` returns a position of the (non-empty) scores |
| DischargeLookup.FirstArgMaxIsFirstBest | discharge_lookup.py:37 | `max(enumerate(scores), key=...)` picks a position holding the maximum, and no earlier position holds it (ties go to the lowest index) |
| DischargeLookup.MatchLabel | discharge_lookup.py:32-42 | no sites gives the `max()` error; a match names a site of `sites` at its index |
| DischargeLookup.MatchLabelIsBest | discharge_lookup.py:32-45 | the chosen site scores best and first; it is accepted only above 80% (`5*score > 4*len`); the score never exceeds the site length, so the warning fires exactly for accepted, imperfect matches |
| DischargeLookup.MatchLabelOkIff | discharge_lookup.py:36-42 | with some site, a varname is matched exactly when the first best site has a non-empty name and scores above 80% of its length; the error is `EmptySiteName` exactly for an empty name and `NoGoodMatch` exactly for a score of 80% or less; a match carries that site, its index, score and length |
| DischargeLookup.MatchAll | discharge_lookup.py:29-42 | the match of every varname, in varname order |
| DischargeLookup.Collect | discharge_lookup.py:28-50 | the loop over the matches starts from the empty dictionary: no varnames give `{}` |
| DischargeLookup.CollectOkIff | discharge_lookup.py:29-50 | the loop succeeds exactly when every match does, and otherwise fails with the first failing match's error |
| DischargeLookup.CollectKeysComplete | discharge_lookup.py:48 | every matched site is a key of the result |
| DischargeLookup.CollectKeysSound | discharge_lookup.py:48 | every key is the site of some match and holds that match's varname |
| DischargeLookup.CollectLastWins | discharge_lookup.py:48 | a site holds the last varname that chose it |
| DischargeLookup.CollectErrorPersists | discharge_lookup.py:42 | once a prefix fails, the whole loop fails with the same error |
| DischargeLookup.VarnameMap | discharge_lookup.py:24-50 | `get_varname_map` is the loop over every varname's match; no varnames give `{}` |
| DischargeLookup.VarnameMapOkIff | discharge_lookup.py:24-50 | the map is built exactly when every varname has a good match; the error is that of the first varname without one |
| DischargeLookup.VarnameMapKeys | discharge_lookup.py:28-50 | every key is one of `sites`, chosen by a varname that it holds; every varname's chosen site is a key |
| DischargeLookup.VarnameMapLastWins | discharge_lookup.py:48 | a later varname choosing the same site overwrites the earlier one |
| DischargeLookup.GetVarnameMap | discharge_lookup.py:24-50 | the loop computes exactly the specified map or first error |
| DischargeLookup.DataBlocks | discharge_lookup.py:76-96 | `data_blocks` is the 3 initial pairs then 27 blocks `(2+5k, 5+5k)`, from `(2, 5)` to `(132, 135)` |
| DischargeLookup.BlockColumns | discharge_lookup.py:108 | a block covers exactly the four consecutive columns `col_start .. col_start+3` |
| DischargeLookup.Zip | discharge_lookup.py:108-111 | `zip` pairs keys and values position by position, up to the shorter |
| DischargeLookup.BlockRecord | discharge_lookup.py:108-111 | a block's record pairs the four discharge variables, in order, with the block's cells in column order |
| DischargeLookup.ScenarioData | discharge_lookup.py:115-118 | the data returned carries `get_varname_map(subbasins, sites, strip=False)` as its varname map and fails exactly when that does; the scenario tables are the given argument, unchanged |
| DischargeLookup.ScenarioDataSites | discharge_lookup.py:115-118 | every site of the varname map is an official site name mapped to a block title, and every block title's chosen site is mapped |
| DischargeLookup.DischargeScenarioRequests | discharge_lookup.py:127-133 | an unknown site fails first, then an unknown scenario; otherwise every request has `retract=True` |
| DischargeLookup.ScenarioFindingsFromBlock | discharge_lookup.py:123-133 | for a record read from a block, exactly four findings on DISCHARGE_YR, _LF, _HF, _FD in that order, valued by the block's cells, each retracted |
| DischargeLookup.UpdateNetDischargeScenario | discharge_lookup.py:123-133 | the two checks and the loop issue exactly the specified requests |
| Netica.NameIndex | netica.py:50 | every node name is a key, each key maps to a node of that name, and with repeated names the highest index wins |
| Netica.NeticaGraph.constructor | netica.py:46-50 | `node_names` is built once from the nodes (a constant: no method changes it); no findings yet |
| Netica.NeticaGraph.NetItr | netica.py:58-63 | yields exactly `num_nodes()` nodes, node `i` in position `i` |
| Netica.NeticaGraph.NumNodes | netica.py:54-56 | `num_nodes()` is the length of the network's node list |
| Netica.NeticaGraph.GetNodeByIndex | netica.py:65-67 | succeeds exactly for indices `0 .. num_nodes()-1`, giving that node |
| Netica.NeticaGraph.GetNodeByName | netica.py:69-72 | succeeds exactly for a name some node has, giving the last node of that name; otherwise KeyError |
| Netica.NeticaGraph.GetNode | netica.py:74-83 | a node object passes through unchanged; any other type is a TypeError |
| Netica.NeticaGraph.NodeName | netica.py:97-101 | on success the reference resolved to a node of this network and the result is that node's name; for a name, success exactly when the name is known, giving it back |
| Netica.NeticaGraph.GetNodeNumStates | netica.py:115-119 | on success the reference resolved to a node of this network and the result is its number of states |
| Netica.NeticaGraph.GetNodeStateName | netica.py:121-125 | on success the node resolved, the index is in `0 .. count - 1`, and the result is the state at that index |
| Netica.NeticaGraph.GetNodeState | netica.py:85-95 | whatever succeeds is one of the resolved node's states; an int succeeds exactly when `get_node_state_name` does; a string succeeds exactly when it is one of the node's states, and is returned unchanged; anything else fails |
| Netica.ResolveSteps | netica.py:127-140 | node, then name, then state are resolved: success exactly when the name and the state both resolve, giving them; otherwise the node's error comes before the state's |
| Netica.NeticaGraph.EnterFinding | netica.py:127-133 | a reference that does not resolve enters nothing; otherwise exactly the resolved (node, state) is appended |
| Netica.NeticaGraph.GetNodeBelief | netica.py:135-140 | succeeds exactly when the references resolve; the engine's belief given the findings so far |
| Netica.GetNodeDispatch | netica.py:74-83 | `get_node` sends a `str` to `get_node_by_name` and an `int` to `get_node_by_index`; a node object passes through; any other type is a TypeError |
| Netica.NodeGettersOkIff | netica.py:85-125 | `node_name` and `get_node_num_states` succeed exactly when the reference resolves to a node of this network; `get_node_state_name` exactly when, in addition, the index is below the state count; `get_node_state` with an index gives the state at that index |
| Netica.NameRoundTrip | netica.py:69-72 | `get_node_by_name(node_name(i))` gives node `i` exactly when no later node has the same name |
| Netica.DistinctNamesResolve | netica.py:50 | with distinct names, `node_names[node_name(i)] == i` and by-name equals by-index |
| Netica.IndexResolution | netica.py:74-125 | by index, node `i` gives its name and state count, state `k` succeeds exactly for `0 <= k < count` and resolves to node `i`'s name and its `k`-th state |
| Netica.GetNodeIdempotent | netica.py:74-83 | `get_node` of the node it returned gives it back |
| Netica.ResolveByNames | netica.py:85-101 | by names, resolution succeeds exactly when the node exists and the state is one of its states, and gives those names back |
| ExportTypes.StateOf | netica.py:85-95 | a JSON string reaches `get_node_state` as a state name; an integer as that index; a boolean, being a Python `int`, as index 1 or 0; `null` and any other value are rejected |
| Limpopo5.ColumnMapper | limpopo_5_subbasin.py:25-30 | a result comes from a name `V-m` with both parts known, and is `readable(V) (readable(m))`; a name without a dash fails to unpack |
| Limpopo5.ColumnMapperOfPair | limpopo_5_subbasin.py:25-30 | on `V-m` with dash-free parts: unknown `V` fails, then unknown `m`, otherwise the readable name |
| Limpopo5.RenameColumns | limpopo_5_subbasin.py:136 | the rename as written succeeds exactly when every column maps; the first that does not is the error |
| Limpopo5.RenameFailsOnLatitude | limpopo_5_subbasin.py:131-136 | the merged frame starts with `latitude`, on which the rename raises |
| Limpopo5.RenameKnownColumnsAgree | limpopo_5_subbasin.py:136 | the intended rename agrees with the as-written one where it succeeds; each column the mapper accepts gets the mapper's name, and each column it rejects (such as `latitude`, or any dash-free name) is kept |
| Limpopo5.RenameKnownColumns | limpopo_5_subbasin.py:136 | the intended rename keeps one name per column, in order |
| Limpopo5.LayoutPositions | limpopo_5_subbasin.py:105-110 | 3 + 6n columns: Country, Catchment, Year, then per output node its four levels in order, `-mean`, `-std` |
| Limpopo5.ColumnCount | limpopo_5_subbasin.py:105-110 | the script's 13 output nodes give 81 columns |
| Limpopo5.Columns | limpopo_5_subbasin.py:105-110 | the nested loops build exactly the header of every slot of the layout |
| Limpopo5.CleanSpec | limpopo_5_subbasin.py:111 | cleaning leaves no quote, and a quote-free name is unchanged |
| Limpopo5.Clean | limpopo_5_subbasin.py:111 | cleaning only removes characters: every character of the result is one of the input |
| Limpopo5.LayoutQuoteFree | limpopo_5_subbasin.py:105-110 | quote-free node names give quote-free headers |
| Limpopo5.CleanGeneratedColumns | limpopo_5_subbasin.py:111 | the quote cleaning is the identity on the generated columns |
| Limpopo5.QueryOf | netica.py:135-140 | the belief query of a network is its `get_node_belief` by names |
| Limpopo5.QueryOkIff | netica.py:135-140 | a belief can be read exactly for a known node and one of its states |
| Limpopo5.BeliefsSpec | limpopo_5_subbasin.py:122-125 | a node's beliefs can be read exactly when every level resolves, each being the belief in its level |
| Limpopo5.Beliefs | limpopo_5_subbasin.py:122-125 | the beliefs read, when they can be, are one per level |
| Limpopo5.BeliefsErrorPersists | limpopo_5_subbasin.py:124 | the first belief that cannot be read fails the whole |
| Limpopo5.RowErrorPersists | limpopo_5_subbasin.py:121-128 | the first output node that fails fails the whole row |
| Limpopo5.RowSpec | limpopo_5_subbasin.py:120-128 | a row, when it can be built, has 3 + 6n cells and starts with the country, catchment and year |
| Limpopo5.RowOkIff | limpopo_5_subbasin.py:120-128 | the row can be built exactly when every output node has every level |
| Limpopo5.RowAligned | limpopo_5_subbasin.py:105-128 | the row is as long as the column list and each cell is what its column names: constants, each level's belief, then mean and std |
| Limpopo5.NodeBeliefs | limpopo_5_subbasin.py:122-125 | the inner loop reads exactly the node's beliefs in level order |
| Limpopo5.Row | limpopo_5_subbasin.py:120-128 | the row loops build exactly the specified row |
| Limpopo5.ClassifySpec | limpopo_5_subbasin.py:90-98 | an entry is skipped exactly for a skip node or a `None` value; entered exactly when it is not skipped, names an input node and gives a level; otherwise rejected, first for the key, then for the value |
| Limpopo5.AtMostOnePerEntry | limpopo_5_subbasin.py:89-100 | the loop enters at most one finding per entry that is not skipped, and an empty configuration enters nothing and ends without error |
| Limpopo5.ApplyConfigTo | limpopo_5_subbasin.py:89-100 | the loop enters exactly the specified findings in order, and stops with the specified error |
| Limpopo5.EnteredInOrder | limpopo_5_subbasin.py:89-100 | when every entry passes, the loop ends without error and enters, one for one and in configuration order, the resolved (node, level) finding of each entry that is not skipped |
| Limpopo5.Unskipped | limpopo_5_subbasin.py:90-93 | keeps exactly the entries that are not skipped: every kept entry is one of the configuration's and not skipped, and every entry not skipped is kept |
| Limpopo5.UnskippedAppend | limpopo_5_subbasin.py:90-93 | kept entries keep their order: those of `a + b` are those of `a` then those of `b`, one entry being kept exactly when it is not skipped |
| Limpopo5.SkipsChangeNothing | limpopo_5_subbasin.py:90-93 | skip nodes and `None` values, wherever they are, change nothing |
| Limpopo5.NoErrorIffAllPass | limpopo_5_subbasin.py:95-100 | no error exactly when every entry is skipped, or names an input node with a level that resolves |
| Limpopo5.FirstFailureStops | limpopo_5_subbasin.py:95-100 | the first invalid entry stops the loop with its error, and the findings entered before it stay |
| Limpopo5.EnteredBeforeFailure | limpopo_5_subbasin.py:89-100 | when an entry fails, the loop ends in error having entered, in order, the resolved findings of exactly the non-skipped entries before it |
| Limpopo5.EnteredAreValid | limpopo_5_subbasin.py:90-100 | every finding entered is an input node, not a skip node, set to a level, as some configuration entry says |
| Limpopo27.SiteRequests | limpopo_27_subbasin.py:98-107 | no entries issue no requests; a request is left unretracted only for a node outside the retract nodes |
| Limpopo27.ApplySiteConfig | limpopo_27_subbasin.py:98-107 | the configuration loop issues exactly the specified requests, or the handler's first error |
| Limpopo27.NoSpecialKeys | limpopo_27_subbasin.py:105-107 | without special keys, every non-`None` entry is one request, in order, and nothing fails |
| Limpopo27.PlainRequestsSpec | limpopo_27_subbasin.py:105-107 | each such request is retracted exactly for a retract node, and carries an entry's key and value |
| Limpopo27.SiteRequestsAppend | limpopo_27_subbasin.py:98-107 | entries are handled in order and independently: the requests of `a + b` are those of `a` then `b` |
| Limpopo27.NullScenarioFails | limpopo_27_subbasin.py:100-103 | a `DISCHARGE_SCENARIO: null` entry is not skipped; it reaches the handler and fails |
| Limpopo27.SpecialKeyHandled | limpopo_27_subbasin.py:98-107 | a special key goes to the discharge-scenario handler whatever its value: the handler's error stops the run, and otherwise its requests come before those of the remaining entries |
| Limpopo27.ColumnsSpec | limpopo_27_subbasin.py:80-83 | 4 + 2n columns, starting with Year, Country, Catchment, Site Name |
| Limpopo27.Columns | limpopo_27_subbasin.py:80-83 | the loop builds exactly the specified column list |
| Limpopo27.RowAligned | limpopo_27_subbasin.py:80-113 | columns and row both have 4 + 2n entries; under each node's mean and std columns are its mean and std |
| Limpopo27.SiteRow | limpopo_27_subbasin.py:110-113 | 4 + 2n cells, starting with the year, country, catchment and site |
| Limpopo27.ColumnCount | limpopo_27_subbasin.py:80-83 | the 13 output nodes give 30 columns |
| Limpopo27.RowsSpec | limpopo_27_subbasin.py:90-115 | when the run succeeds, one row per file-map entry |
| Limpopo27.RowsPerSite | limpopo_27_subbasin.py:90-115 | one row per file-map entry, in order, row `i` depending on entry `i` alone; success exactly when every site's requests succeed |
| Limpopo27.RowsErrorPersists | limpopo_27_subbasin.py:90-115 | the first failing site stops the run |
| Limpopo27.Rows | limpopo_27_subbasin.py:90-115 | the per-site loop builds exactly the specified rows |

## Left out

- `NeticaManager` (netica.py:12-43): environment and licence set-up, engine start and stop, file reading and compiling, and clean-up at garbage collection. These are engine lifecycle and file I/O through a foreign library.
- Engine semantics: what a finding does to beliefs, node types and kinds, and `cleanup_net`. A belief is an uninterpreted function of the findings entered so far. A node object is identified with its index. A node object of another network is therefore taken for this network's node at the same index when that index is below `num_nodes()`, and fails as `ForeignHandle` otherwise; in Python the engine reads that foreign node's own name and states.
- Netica.NeticaGraph.GetNodeByIndex: an index outside `0 .. num_nodes()-1` is an error here. In Python, the engine's behaviour for it (including negative indices) is not visible.
- Netica.NeticaGraph.GetNodeStateName: a state index outside `0 .. count - 1` is an error here (`StateIndexOutOfRange`), and so is `get_node_state` with such an index. In Python, the engine's behaviour for it is not visible.
- The requests issued by `limpopo_27_subbasin.py` and by `update_net_discharge_scenario` are not resolved against a network: an unknown node or state never fails in `SiteRequests` or `DischargeScenarioRequests`. In Python, `enter_finding` would raise `KeyError` or `AssertionError` for them, were the `retract` argument accepted. `limpopo_5_subbasin.py`'s findings are resolved (`ApplyConfigTo`).
- `get_stats` in both scripts: the floating-point statistics (`linspace`, `repeat`, `sqrt`). In `limpopo_5_subbasin.py` they are a function of the node's four beliefs; in `limpopo_27_subbasin.py` they are a function of the network file, the requests and the node.
- The `retract=` argument: `enter_finding` (netica.py:127) has no `retract` parameter, but `limpopo_27_subbasin.py:107` and `discharge_lookup.py:133` pass one. As written, those calls raise a `TypeError`. They are modelled as the requests they issue, with the flag.
- `limpopo_27_subbasin.py:44` calls `get_num_node_states`, which `NeticaGraph` does not define (it has `get_node_num_states`). As written, that call raises. The statistics are therefore a parameter.
- The workbook reading in `get_discharge_scenario_data`: openpyxl, the merged-cell title lookup and the CSV of site names. The worksheet is a function from (row, column) to a value; titles and site names are inputs. The assembly of `discharge_values` from the blocks and titles (discharge_lookup.py:94-111), including a later title overwriting an earlier one, is not modelled either: `ScenarioData` takes the scenario tables as an argument, and `ScenarioFindingsFromBlock` relates one table to its block.
- DischargeLookup.DischargeScenarioRequests: the handler receives the successful result of `get_discharge_scenario_data` as its `data` input. The failure of that call inside the handler (discharge_lookup.py:127, through `get_varname_map` at line 115: no site above 80% at line 42, or an empty best site at line 40) is therefore not one of the handler's outcomes here, nor of `SiteRequests`, `RowsSpec` or `RowsPerSite`, whose success conditions hold given that data. `ScenarioData` models that failure on its own.
- The `@cache` memoisation, JSON loading, the pandas DataFrame construction, merge, regex column drop and `to_csv`, and all printed or verbose output.
- DischargeLookup.Accepted: `score / len > 0.8` is stated exactly in integers as `5*score > 4*len`; floating-point rounding is not modelled.
- Strings.IsSpace: Python's `str.isspace` set is listed by code point; Unicode data beyond that list is not modelled.
- `mara.py`, `limpopo.py`, `mara/mara_demo.py`, `utilities.py` and `test.py` are not part of this model: they are scripts without functions, enum machinery, and an exploration script.

## Findings

| source | as written | input that shows it | evidently intended | confidence | as-written member | corrected member |
|---|---|---|---|---|---|---|
| limpopo_5_subbasin.py:136 | `df.rename(columns=column_mapper)` applies the mapper to every column; a name that does not split into exactly two parts at `-` raises `ValueError` | the merged frame's first column, `latitude` (also `longitude`, `RR`, `Country`, `Catchment`, `Year`) | only the `<node>-mean` and `<node>-std` columns are renamed, and every other column is kept | high; not executed | Limpopo5.RenameFailsOnLatitude | Limpopo5.RenameKnownColumnsAgree |
