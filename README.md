# ib-topo: the topology pipeline, modelled in Dafny

`ib-topo` groups the hosts of an InfiniBand fabric into *torsets*: sets of
hosts that hang off the same leaf switches. The `IBTopology` class in
`src/ibtopo/topo.py` works in stages:

1. it collects each host's port GUIDs and builds a GUID -> host table
   (`fetch_guids`);
2. the SHARP `topology` command writes a topology text made of lines like
   `SwitchName=ibsw2 Nodes=0x155dfffd341acb,0x155dfffd341b0b`;
3. it reads, per switch, the comma-separated device list of every `Nodes=`
   line (`_populate_device_guids_per_switch`);
4. it builds the fabric graph (`_populate_graph`);
5. it walks the device lists, giving each host seen for the first time the
   label `torset-NN` (`identify_torsets`);
6. it inverts host -> torset into torset -> hosts (`group_hosts_by_torset`).

This project models those stages, minus the SSH, subprocess, file and
plotting plumbing. The topology text is a sequence of lines. The SSH call of
each host is a `CommandResult(host, stdout, returnCode)`. Every stage that
loops in the source is a method with a `while` loop proved equal to a
recursive specification function. The properties of the stage are lemmas
about that function.

Modules:

- `Wrappers`: `Option` and `Result`.
- `Faults`: the two ways the source crashes.
  - `MalformedLine`: `IndexError` on a line.
  - `UnknownGuid`: `KeyError` on a GUID.
- `PyStr`: the Python string operations the code uses, with CPython's meaning.
  - `isspace`, `strip`, `split(sep)`, `split()`, `startswith`, `in`, `replace`.
- `PyDict`: an insertion-ordered dict.
  - A key sequence plus a map.
  - `d[k] = v` keeps an existing key in its place.
- `Graphs`: the part of a networkx `Graph` the code uses.
  - The vertex set.
  - Undirected edges, as sets of end points.
  - `type` attributes.
- `TorsetLabels`: `torset-NN` formatting.
- One module per stage: `DeviceLists`, `TopologyGraph`, `GuidTable`, `TorsetAssignment`, `TorsetGroups`.
- `Pipeline`: chains extraction, torset assignment and grouping.

Both crashes of the source become a `Failure` result instead of a
precondition. `MalformedLine` is an `IndexError` while slicing a line:
- in extraction, a `Nodes=` line whose second single-space field is missing
  or has no `=`;
- in the graph build, a first field without `=`, or a bare `Switches` /
  `Nodes` second field.

`UnknownGuid` is the `KeyError` of a GUID missing from the GUID table.

## Model

| member | source | states |
|---|---|---|
| DeviceLists.PopulateDeviceGuidsPerSwitch | src/ibtopo/topo.py:122-130 | the loop over the lines computes exactly the extraction function `DeviceGuidsPerSwitch`: the kept fields in order, or the first `IndexError` |
| DeviceLists.NodesField | src/ibtopo/topo.py:129 | slicing a line fails exactly when the stripped line has fewer than two single-space fields or no `=` in the second |
| DeviceLists.ExtractionShape | src/ibtopo/topo.py:122-130 | extraction succeeds iff no `Nodes=` line is malformed; then there is one entry per line containing `Nodes=`, in input order, each the text after `=` of that line's second field (comment lines are not skipped) |
| DeviceLists.ExtractionFailure | src/ibtopo/topo.py:126-129 | a failing extraction names the first malformed `Nodes=` line, its index and text; every earlier line is well formed |
| DeviceLists.FailureStays | src/ibtopo/topo.py:125-129 | once a prefix of the lines raises, the whole extraction raises the same error |
| DeviceLists.DeclarationField | src/ibtopo/topo.py:128-129 | for `SwitchName=<sw> Nodes=<ids>`, with or without the trailing newline of a file line, the kept field is `<ids>` |
| Graphs.AddNode | src/ibtopo/topo.py:149 | adding a typed vertex adds that vertex and sets its `type`; the edges, the other vertices' types and the edge types are unchanged |
| Graphs.AddEdge | src/ibtopo/topo.py:144-150 | adding an edge adds both end points and the edge, sets the edge's `type` only when one is given, and changes nothing else |
| Graphs.AddEdgeUndirected | src/ibtopo/topo.py:144-150 | adding `(u, v)` and adding `(v, u)` give the same graph |
| Graphs.AddEdgeAgain | src/ibtopo/topo.py:144-150 | re-adding an existing edge, in either orientation and with the same attribute, leaves the graph unchanged: there are no multi-edges |
| TopologyGraph.PopulateGraph | src/ibtopo/topo.py:132-151 | the loop over the lines computes exactly the graph function `GraphOf`, or the first `IndexError` |
| TopologyGraph.LinkSwitches | src/ibtopo/topo.py:143-145 | the loop over a `Switches=` list adds the edges of `AddSwitchLinks` |
| TopologyGraph.AttachDevices | src/ibtopo/topo.py:147-150 | the loop over a `Nodes=` list adds the vertices and edges of `AddDevices` |
| TopologyGraph.ParseLine | src/ibtopo/topo.py:136-147 | a line is skipped exactly when it starts with `#` or is all whitespace |
| TopologyGraph.GraphOf | src/ibtopo/topo.py:132-151 | a built graph is well formed, and its only attribute values are `type='node'` on vertices and `type='switch-to-node'` on edges |
| TopologyGraph.AddSwitchLinks | src/ibtopo/topo.py:143-145 | switch links keep the graph and add no attribute |
| TopologyGraph.AddDevices | src/ibtopo/topo.py:147-150 | device links keep the graph and keep the only attribute values `node` and `switch-to-node` |
| TopologyGraph.DeviceVertex | src/ibtopo/topo.py:146-150 | every GUID listed in a `Nodes=` clause is a vertex of type `node`, joined to the declaring switch by an edge of type `switch-to-node` |
| TopologyGraph.SwitchEdge | src/ibtopo/topo.py:142-145 | every switch listed in a `Switches=` clause is joined to the declaring switch, and both are vertices |
| TopologyGraph.EdgeComplete | src/ibtopo/topo.py:142-150 | every edge a line declares is in the graph |
| TopologyGraph.EdgeSound | src/ibtopo/topo.py:142-150 | every edge of the graph is declared by some line |
| TopologyGraph.DeviceVerticesExactly | src/ibtopo/topo.py:146-150 | a vertex has a `type` attribute iff some line lists it in a `Nodes=` clause |
| TopologyGraph.DeviceListed | src/ibtopo/topo.py:146-150 | a vertex listed in a `Nodes=` clause has a `type` attribute |
| TopologyGraph.DeviceDeclared | src/ibtopo/topo.py:146-150 | a vertex with a `type` attribute is listed in some `Nodes=` clause |
| TopologyGraph.TypedEdgeDeclared | src/ibtopo/topo.py:142-150 | an edge with a `type` attribute is a device link that some `Nodes=` clause declares; an edge only a `Switches=` clause declares has no `type` |
| TopologyGraph.NoIsolatedVertex | src/ibtopo/topo.py:139-150 | the vertices are exactly the end points of the edges; a switch named on a line without a clause gets no vertex of its own |
| TopologyGraph.LineAddsNothing | src/ibtopo/topo.py:136-146 | a comment line, a whitespace-only line, a bare switch line, or a line whose clause is neither `Switches` nor `Nodes` leaves the graph unchanged |
| TopologyGraph.GraphFailure | src/ibtopo/topo.py:138-147 | the build fails iff some line cannot be sliced; then the error names the first such line |
| TopologyGraph.FailureStays | src/ibtopo/topo.py:135-150 | once a prefix of the lines raises, the whole build raises the same error |
| TopologyGraph.PrefixGrows | src/ibtopo/topo.py:135-150 | the graph only grows: the graph of every prefix is contained in the final graph |
| TopologyGraph.ParseDeclaration | src/ibtopo/topo.py:138-147 | `SwitchName=<sw> <key>=<list>` declares switch `<sw>` with a switch list, a device list or an ignored clause, depending on `<key>` |
| TopologyGraph.ParseBareSwitch | src/ibtopo/topo.py:139-140 | `SwitchName=<sw>` alone declares `<sw>` with no clause |
| GuidTable.FetchGuids | src/ibtopo/topo.py:97-110 | the loop over the hosts' results computes exactly the table function `Table` |
| GuidTable.EnterGuids | src/ibtopo/topo.py:106-107 | the inner loop enters every token of one host with that host |
| GuidTable.PutAll | src/ibtopo/topo.py:106-107 | entering a host's tokens maps each of them to the host, overwriting earlier owners, and keeps the existing insertion order |
| GuidTable.TableDomain | src/ibtopo/topo.py:99-107 | a GUID is in the table iff some host with return code 0 reported it |
| GuidTable.TableLastReport | src/ibtopo/topo.py:106-107 | a GUID belongs to the last successful host that reported it: later hosts overwrite earlier ones |
| GuidTable.FailedHostIgnored | src/ibtopo/topo.py:101-109 | removing a host with a non-zero return code from the results leaves the table unchanged |
| GuidTable.NormalizeGuids | src/ibtopo/topo.py:105 | the normalised tokens are non-empty and free of whitespace |
| GuidTable.NormalizeTokenwise | src/ibtopo/topo.py:105 | normalising works token by token: the GUIDs are the whitespace-separated tokens of the output, each with its `0x00` occurrences replaced |
| PyStr.ReplaceTokenwise | src/ibtopo/topo.py:105 | with a whitespace-free pattern and replacement, `replace` then `split()` equals `split()` then `replace` on each token |
| GuidTable.RawGuidCanonical | src/ibtopo/topo.py:102-105 | the token `0x00<hex digits>` becomes `0x<hex digits>` |
| GuidTable.CanonicalFromRaw | src/ibtopo/topo.py:102-105 | the stripped output `0x00<hex digits>` of a host gives the single GUID `0x<hex digits>` |
| GuidTable.NormalizeListing | src/ibtopo/topo.py:102-105 | any output whose tokens are `0x00<hex>` GUIDs, however spaced, indented or terminated, normalises to the same GUIDs written with `0x`, in order |
| GuidTable.NormalizeStrippedListing | src/ibtopo/topo.py:102-105 | the stripped, newline-separated listing of `0x00<hex>` GUIDs normalises to the same GUIDs written with `0x`, in order |
| GuidTable.NoRawPrefixUnchanged | src/ibtopo/topo.py:105 | output containing no `0x00` is only split at whitespace |
| GuidTable.NotIdempotent | src/ibtopo/topo.py:105 | `replace` acts on every occurrence and is not idempotent: `0x0000aa` becomes `0x00aa`, which becomes `0xaa` |
| PyStr.ReplaceAll | src/ibtopo/topo.py:105 | `replace` with a replacement no longer than the pattern never makes the text longer |
| PyStr.ReplaceAbsent | src/ibtopo/topo.py:105 | `replace` leaves text without the pattern unchanged |
| PyStr.IsSpace | src/ibtopo/topo.py:138 | space, tab, newline and carriage return are whitespace; digits, letters, `=`, `,`, `#` and `-` are not |
| PyStr.StartsWithExactly | src/ibtopo/topo.py:136 | `startswith(p)` holds iff the text is `p` followed by some rest |
| PyStr.ContainsAt | src/ibtopo/topo.py:126 | `sub in s` holds iff `sub` occurs at some position of `s` |
| PyStr.Strip | src/ibtopo/topo.py:129 | `strip()` neither starts nor ends with whitespace, and is empty iff the text is all whitespace |
| PyStr.StripSlice | src/ibtopo/topo.py:157 | `strip()` is a slice of the text with only whitespace cut off before and after it |
| PyStr.Split | src/ibtopo/topo.py:139-147 | `split(sep)` gives at least one piece, and no piece holds the separator |
| PyStr.JoinSplit | src/ibtopo/topo.py:139-147 | joining the pieces of `split(sep)` with the separator gives the text back |
| PyStr.SplitJoin | src/ibtopo/topo.py:143-148 | splitting a join of separator-free pieces gives the pieces back |
| PyStr.SplitWs | src/ibtopo/topo.py:138 | the pieces of `split()` are non-empty and free of whitespace |
| PyStr.SplitWsJoin | src/ibtopo/topo.py:138 | whitespace-free words joined by whitespace split back into those words |
| PyStr.SplitWsEmpty | src/ibtopo/topo.py:136-138 | `split()` is empty iff the text is all whitespace, which is when `strip()` is empty |
| TorsetAssignment.IdentifyTorsets | src/ibtopo/topo.py:153-165 | the loop over the device lists computes exactly the assignment function `Torsets`, or the first `KeyError` |
| TorsetAssignment.GuidsOf | src/ibtopo/topo.py:157 | a switch's GUIDs hold no comma, and joined with commas they give the stripped entry back |
| TorsetAssignment.LabelSwitch | src/ibtopo/topo.py:157-164 | one switch's list is labelled with the count of distinct labels in use before it |
| TorsetAssignment.AssignHosts | src/ibtopo/topo.py:160-164 | the inner loop gives every new host of one switch the same label and skips hosts already labelled |
| TorsetAssignment.TorsetsOutcome | src/ibtopo/topo.py:156-161 | assignment succeeds iff every listed GUID is in the table; otherwise the `KeyError` names a listed GUID the table lacks |
| TorsetAssignment.TorsetsLabelled | src/ibtopo/topo.py:153-165 | the labelled hosts are exactly the hosts reached from the listed GUIDs, and the labels in use are exactly `torset-00` .. `torset-(k-1)` |
| TorsetAssignment.LabelsKept | src/ibtopo/topo.py:162-163 | a host's first label is never changed by later switches |
| TorsetAssignment.SwitchLabel | src/ibtopo/topo.py:159-164 | every host first seen at a switch gets `torset-` plus the two-digit count of distinct labels assigned before that switch |
| TorsetAssignment.AssignSwitchShape | src/ibtopo/topo.py:160-164 | one switch succeeds iff all its GUIDs are known; earlier labels stay; the new hosts are exactly the hosts its GUIDs resolve to, and all get the switch's label |
| TorsetAssignment.NoNewHostNoNewLabel | src/ibtopo/topo.py:162-163 | a switch whose hosts are all labelled already leaves the dict unchanged |
| TorsetAssignment.AssignSwitchLabels | src/ibtopo/topo.py:159-164 | a switch adds its label to the labels in use exactly when it introduces a new host |
| TorsetLabels.LabelRoundTrip | src/ibtopo/topo.py:164 | a label starts with `torset-` and its digits read back as its index |
| TorsetLabels.LabelInjective | src/ibtopo/topo.py:164 | distinct indices give distinct labels |
| TorsetLabels.Pad2Value | src/ibtopo/topo.py:164 | the `:02` format is at least two digits, exactly two below 100, and reads back as the number |
| TorsetLabels.Pad2 | src/ibtopo/topo.py:164 | the `:02` format is made of digits only |
| TorsetLabels.Label | src/ibtopo/topo.py:164 | a label is `torset-` followed by at least two digits, exactly two below 100 |
| TorsetLabels.LabelsBelowSize | src/ibtopo/topo.py:159 | there are exactly `k` labels below `k` |
| TorsetLabels.FirstLabels | src/ibtopo/topo.py:164 | indices 0, 1 and 10 format as `torset-00`, `torset-01` and `torset-10` |
| TorsetGroups.GroupHostsByTorset | src/ibtopo/topo.py:167-174 | the loop over the dict's items computes exactly the grouping function `Groups` of those items |
| TorsetGroups.GroupsShape | src/ibtopo/topo.py:167-174 | the groups hold one key per torset in use, each with exactly its hosts in visiting order |
| TorsetGroups.GroupsInvert | src/ibtopo/topo.py:169-173 | `h` is in the list of `t` iff the pair `(h, t)` was visited |
| TorsetGroups.GroupsNonEmpty | src/ibtopo/topo.py:170-171 | no torset has an empty list |
| TorsetGroups.MembersExactly | src/ibtopo/topo.py:169-173 | the members of a torset are exactly the hosts visited with it |
| TorsetGroups.MembersDistinct | src/ibtopo/topo.py:169-173 | hosts visited once each are listed once each |
| TorsetGroups.GroupsOfDictKeys | src/ibtopo/topo.py:167-174 | grouping a host -> torset dict gives exactly its labels as keys, as many keys as distinct labels |
| TorsetGroups.GroupsOfDictMembers | src/ibtopo/topo.py:167-174 | `h` is in the list of `t` iff the dict maps `h` to `t`, and no list repeats a host |
| TorsetGroups.GroupsKeyOrder | src/ibtopo/topo.py:167-174 | the group keys come in the order in which each torset is first met while walking the items |
| TorsetGroups.FirstSeenHas | src/ibtopo/topo.py:169-171 | the torsets met while walking the items are exactly the torsets some item carries |
| TorsetGroups.FirstSeenOrder | src/ibtopo/topo.py:169-171 | of two keys, the earlier one is carried by an item that comes before every item of the later one |
| PyDict.Put | src/ibtopo/topo.py:164-173 | assigning a key updates the map, and appends the key to the order only when it is new |
| PyDict.Items | src/ibtopo/topo.py:169 | the items are the key-value pairs in insertion order |
| PyDict.ItemsExactly | src/ibtopo/topo.py:169 | `(k, v)` is an item iff the dict maps `k` to `v` |
| PyDict.LengthIsSize | tests/test_ibtopo.py:120 | `len` of a dict, as the test takes it of the torset groups, is the number of its distinct keys |
| Pipeline.GroupKeysAreLabels | src/ibtopo/topo.py:153-174 | after assignment and grouping, the group keys are exactly `torset-00` .. `torset-(k-1)` for `k` groups, and each labelled host is in exactly the group of its label |
| Pipeline.GroupKeysInOrder | src/ibtopo/topo.py:153-174 | after assignment and grouping, the `i`-th group key is `torset-` followed by the two-digit `i` |
| Pipeline.TorsetsInOrder | src/ibtopo/topo.py:153-165 | walking the host -> torset dict in insertion order, its labels first appear as `torset-00`, `torset-01`, ... |
| Pipeline.AssignSwitchInOrder | src/ibtopo/topo.py:159-164 | one switch, labelling its new hosts with a label in use or the next one, keeps that first-appearance order |
| Pipeline.ItemsPut | src/ibtopo/topo.py:164 | a new host's pair joins the end of `items()`, and its label joins the labels in use |
| Pipeline.TwoSwitches | src/ibtopo/topo.py:122-174 | two `Nodes=` lines, GUIDs `a,b` of host `h1` and `c` of host `h2`, give the groups `torset-00: [h1]` and `torset-01: [h2]` |
| Pipeline.TwoTorsets | src/ibtopo/topo.py:153-165 | for those lists, `h1` gets `torset-00` and `h2` gets `torset-01` |
| Pipeline.GroupTwo | src/ibtopo/topo.py:167-174 | two hosts with different labels form one group each, in host order |

## Left out

- `run_command`, `create_topo_file` (src/ibtopo/topo.py:16-25, 117-120): they run the external `sharp_cmd` binary. The topology text is an input here.
- `run_remote_cmd` and `_fetch_guids` (src/ibtopo/topo.py:28-38, 93-95): SSH via `fabric`, including its `.strip()` of the output. Each host's result is an input (`CommandResult`).
- GuidTable.FetchGuids: covers only results that were returned. `run_remote_cmd` re-raises any exception of the SSH call (src/ibtopo/topo.py:37-38), and `fetch_guids` does not catch it (src/ibtopo/topo.py:99-100), so a host whose call raises ends the whole table build. `CommandResult` cannot express that; only a returned non-zero `return_code` is skipped (src/ibtopo/topo.py:101-109).
- `fetch_guids` calls `_fetch_guids` with three of its four arguments (src/ibtopo/topo.py:100). As written that raises `TypeError`. The model takes the results that call was meant to return.
- `logging.error` for a failed host (src/ibtopo/topo.py:109): logging is output only; the table effect is modelled by `GuidTable.FailedHostIgnored`.
- `_read_hosts_file`, `write_guids_to_file`, `write_hosts_by_torset` (src/ibtopo/topo.py:87-91, 112-115, 176-181): file I/O. Reading the topology file becomes a sequence of lines, and each line may keep its newline.
- `draw_topology` (src/ibtopo/topo.py:183-186): plotting with a floating-point layout.
- `main`, `parse_args`, `cli`, `TopologyConfig` (src/ibtopo/topo.py:41-51, 189-248): orchestration and argument parsing. `Pipeline` chains the stages on explicit inputs instead.
- The `IBTopology` class and its class-level mutable defaults (src/ibtopo/topo.py:59-73): each stage takes the fields it reads as parameters. The sharing of those defaults between instances is not modelled.
- networkx beyond `add_node` and `add_edge` with one `type` attribute. Graph size and degree queries are not modelled.
- The counts asserted by tests/test_ibtopo.py:89, 98-99, 109 and 120 depend on data files that are not part of this model. `Pipeline.TwoSwitches` works through a small fabric instead.
- PyStr.ReplaceAll: it requires a non-empty pattern. The source only replaces `0x00`, and an empty pattern has a different meaning in Python.
- PyStr.IsSpace: it is CPython's whitespace set for `str.isspace`. Unicode normalisation and other text encodings are not modelled.
- Python's own crash on reading a file that is not valid text is not modelled.

## Behaviour of the code worth knowing

The model follows `src/ibtopo/topo.py` as written, including these points.

- Normalisation: the comment at src/ibtopo/topo.py:102-103 speaks of removing "the leading 00 after 0x". Line 105 replaces every occurrence of `0x00` in the output, not just the one after each GUID's `0x`. `GuidTable.NotIdempotent` shows the difference.
- Vertices: vertices are created only by `add_edge` and `add_node` inside the clause branches (src/ibtopo/topo.py:139-150). The switch name computed at line 139 adds no vertex by itself, so a bare `SwitchName=<sw>` line adds nothing (`TopologyGraph.LineAddsNothing`, `TopologyGraph.NoIsolatedVertex`).
- Attributes: the `add_edge` at src/ibtopo/topo.py:145 sets no attribute. Devices get `type='node'` and their edges `type='switch-to-node'` (src/ibtopo/topo.py:149-150). An edge that both a `Switches=` and a `Nodes=` clause declare keeps that `type` (`TopologyGraph.TypedEdgeDeclared`).
- Degree: networkx keeps one edge per pair of vertices, so listing a device twice under the same switch adds one edge (src/ibtopo/topo.py:150). A device has one edge per distinct switch that lists it in `Nodes=` or names it in `Switches=`, so the model does not claim a degree.
- Label number: `torset_index` is computed once per switch, before its list is walked (src/ibtopo/topo.py:159). All hosts first seen at one switch therefore share one label (`TorsetAssignment.SwitchLabel`).
- Comment and blank lines: the graph build skips them (src/ibtopo/topo.py:136). Extraction checks only for `Nodes=` (src/ibtopo/topo.py:126), so a comment line containing `Nodes=` is extracted too (`DeviceLists.ExtractionShape`).
- Unknown clauses: a clause other than `Switches` or `Nodes` is silently ignored (src/ibtopo/topo.py:142-146).
