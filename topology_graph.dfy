/**
 * `IBTopology._populate_graph`: builds the fabric graph from the lines of the
 * topology text. `Switches=` clauses add switch-to-switch edges; `Nodes=`
 * clauses add device vertices of type `node` and edges of type
 * `switch-to-node`.
 */
module TopologyGraph {
  import opened Wrappers
  import opened PyStr
  import opened Faults
  import opened Graphs

  const NodeType: string := "node"
  const DeviceEdgeType: string := "switch-to-node"

  datatype Clause =
      NoClause
    | SwitchLinks(switches: seq<string>)
    | DeviceLinks(devices: seq<string>)
    | OtherClause(key: string)

  /** What one line declares, once its fields are sliced. */
  datatype LineDecl = Skipped | Declaration(switch: string, clause: Clause)

  /**
   * The field slicing of one line: comment and blank lines are skipped;
   * otherwise the switch name is the text after the first `=` of the first
   * whitespace-separated field, and the second field, split at `=`, selects
   * the clause. `None` where Python raises `IndexError` (no `=` in the first
   * field, or a bare `Switches` / `Nodes` second field).
   */
  function ParseLine(line: string): (r: Option<LineDecl>)
    ensures r == Some(Skipped) <==> StartsWith(line, "#") || AllSpace(line)
  {
    if StartsWith(line, "#") || Strip(line) == [] then Some(Skipped)
    else
      SplitWsEmpty(line);
      var parts := SplitWs(line);
      var head := Split(parts[0], '=');
      if |head| < 2 then None
      else if |parts| == 1 then Some(Declaration(head[1], NoClause))
      else
        var conn := Split(parts[1], '=');
        if conn[0] == "Switches" then
          if |conn| < 2 then None else Some(Declaration(head[1], SwitchLinks(Split(conn[1], ','))))
        else if conn[0] == "Nodes" then
          if |conn| < 2 then None else Some(Declaration(head[1], DeviceLinks(Split(conn[1], ','))))
        else Some(Declaration(head[1], OtherClause(conn[0])))
  }

  /** The only attribute values the source writes: every typed vertex is a `node`, every typed edge `switch-to-node`. */
  predicate Tagged(g: Graph) {
    && (forall n :: n in g.vertexType ==> g.vertexType[n] == NodeType)
    && (forall e :: e in g.edgeType ==> g.edgeType[e] == DeviceEdgeType)
  }

  /** A `Switches=` clause: an untyped edge from the switch to each listed name, in order. */
  function AddSwitchLinks(g: Graph, sw: string, names: seq<string>): (r: Graph)
    requires Valid(g)
    ensures Valid(r) && Grows(g, r)
    ensures r.vertexType == g.vertexType && r.edgeType == g.edgeType
    decreases |names|
  {
    if |names| == 0 then g
    else AddEdge(AddSwitchLinks(g, sw, names[..|names| - 1]), sw, names[|names| - 1], None)
  }

  /** A `Nodes=` clause: each listed device becomes a `node` vertex joined to the switch by a `switch-to-node` edge, in order. */
  function AddDevices(g: Graph, sw: string, devices: seq<string>): (r: Graph)
    requires Valid(g)
    ensures Valid(r) && Grows(g, r)
    ensures Tagged(g) ==> Tagged(r)
    decreases |devices|
  {
    if |devices| == 0 then g
    else
      var d := devices[|devices| - 1];
      AddEdge(AddNode(AddDevices(g, sw, devices[..|devices| - 1]), d, NodeType), sw, d, Some(DeviceEdgeType))
  }

  /** The graph updates one parsed line makes. */
  function ApplyLine(g: Graph, d: LineDecl): (r: Graph)
    requires Valid(g)
    ensures Valid(r) && Grows(g, r)
    ensures Tagged(g) ==> Tagged(r)
  {
    match d
    case Declaration(sw, SwitchLinks(names)) => AddSwitchLinks(g, sw, names)
    case Declaration(sw, DeviceLinks(devices)) => AddDevices(g, sw, devices)
    case _ => g
  }

  /** The whole loop over the file: the graph, or the first line that raises. */
  function GraphOf(lines: seq<string>): (r: Result<Graph, Fault>)
    ensures r.Success? ==> Valid(r.value) && Tagged(r.value)
  {
    if |lines| == 0 then Success(EmptyGraph())
    else match GraphOf(lines[..|lines| - 1])
      case Failure(e) => Failure(e)
      case Success(g) =>
        var line := lines[|lines| - 1];
        match ParseLine(line)
        case None => Failure(MalformedLine(|lines| - 1, line))
        case Some(d) => Success(ApplyLine(g, d))
  }

  /** The source's nested loops, mutating one graph. */
  method PopulateGraph(lines: seq<string>) returns (r: Result<Graph, Fault>)
    ensures r == GraphOf(lines)
  {
    var graph := EmptyGraph();
    var i := 0;
    while i < |lines|
      invariant 0 <= i <= |lines|
      invariant GraphOf(lines[..i]) == Success(graph)
    {
      var line := lines[i];
      assert lines[..i + 1][..i] == lines[..i];
      var decl := ParseLine(line);
      if decl.None? {
        r := Failure(MalformedLine(i, line));
        FailureStays(lines, i + 1);
        return;
      }
      assert GraphOf(lines[..i + 1]) == Success(ApplyLine(graph, decl.value));
      match decl.value {
      case Declaration(sw, SwitchLinks(names)) =>
        graph := LinkSwitches(graph, sw, names);
      case Declaration(sw, DeviceLinks(devices)) =>
        graph := AttachDevices(graph, sw, devices);
      case _ =>
      }
      i := i + 1;
    }
    assert lines[..|lines|] == lines;
    r := Success(graph);
  }

  /** The inner loop over a `Switches=` list. */
  method LinkSwitches(g0: Graph, sw: string, names: seq<string>) returns (graph: Graph)
    requires Valid(g0)
    ensures graph == AddSwitchLinks(g0, sw, names)
  {
    graph := g0;
    var k := 0;
    while k < |names|
      invariant 0 <= k <= |names|
      invariant Valid(graph) && graph == AddSwitchLinks(g0, sw, names[..k])
    {
      assert names[..k + 1][..k] == names[..k];
      graph := AddEdge(graph, sw, names[k], None);
      k := k + 1;
    }
    assert names[..|names|] == names;
  }

  /** The inner loop over a `Nodes=` list. */
  method AttachDevices(g0: Graph, sw: string, devices: seq<string>) returns (graph: Graph)
    requires Valid(g0)
    ensures graph == AddDevices(g0, sw, devices)
  {
    graph := g0;
    var k := 0;
    while k < |devices|
      invariant 0 <= k <= |devices|
      invariant Valid(graph) && graph == AddDevices(g0, sw, devices[..k])
    {
      assert devices[..k + 1][..k] == devices[..k];
      graph := AddNode(graph, devices[k], NodeType);
      graph := AddEdge(graph, sw, devices[k], Some(DeviceEdgeType));
      k := k + 1;
    }
    assert devices[..|devices|] == devices;
  }

  lemma {:induction false} FailureStays(lines: seq<string>, i: nat)
    requires i <= |lines|
    requires GraphOf(lines[..i]).Failure?
    ensures GraphOf(lines) == GraphOf(lines[..i])
    decreases |lines| - i
  {
    if i < |lines| {
      assert lines[..i + 1][..i] == lines[..i];
      FailureStays(lines, i + 1);
    } else {
      assert lines[..i] == lines;
    }
  }

  /** Each line only adds: the graph built from a prefix of the file is contained in the final one. */
  lemma {:induction false} PrefixGrows(lines: seq<string>, i: nat)
    requires i <= |lines| && GraphOf(lines).Success?
    ensures GraphOf(lines[..i]).Success? && Grows(GraphOf(lines[..i]).value, GraphOf(lines).value)
    decreases |lines|
  {
    if i == |lines| {
      assert lines[..i] == lines;
    } else {
      var init := lines[..|lines| - 1];
      PrefixGrows(init, i);
      assert init[..i] == lines[..i];
    }
  }

  /** The last line of a file that parses applies its declaration to the graph of the lines before it. */
  lemma LastStep(pre: seq<string>, d: LineDecl)
    requires |pre| > 0 && GraphOf(pre).Success? && ParseLine(pre[|pre| - 1]) == Some(d)
    ensures GraphOf(pre[..|pre| - 1]).Success?
    ensures GraphOf(pre) == Success(ApplyLine(GraphOf(pre[..|pre| - 1]).value, d))
  {
  }

  /** The graph after line `i` is the graph before it with that line's declaration applied. */
  lemma LineStep(lines: seq<string>, i: nat, d: LineDecl)
    requires i < |lines| && GraphOf(lines[..i + 1]).Success? && ParseLine(lines[i]) == Some(d)
    ensures GraphOf(lines[..i]).Success?
    ensures GraphOf(lines[..i + 1]) == Success(ApplyLine(GraphOf(lines[..i]).value, d))
  {
    var pre := lines[..i + 1];
    assert pre[|pre| - 1] == lines[i];
    LastStep(pre, d);
    assert pre[..|pre| - 1] == lines[..i];
  }

  lemma {:induction false} AddDevicesHas(g: Graph, sw: string, devices: seq<string>, k: nat)
    requires Valid(g) && k < |devices|
    ensures var r := AddDevices(g, sw, devices);
      devices[k] in r.vertexType && EdgeOf(sw, devices[k]) in r.edges && EdgeOf(sw, devices[k]) in r.edgeType
    decreases |devices|
  {
    if k < |devices| - 1 {
      AddDevicesHas(g, sw, devices[..|devices| - 1], k);
    }
  }

  lemma {:induction false} AddSwitchLinksHas(g: Graph, sw: string, names: seq<string>, k: nat)
    requires Valid(g) && k < |names|
    ensures var r := AddSwitchLinks(g, sw, names);
      sw in r.vertices && names[k] in r.vertices && EdgeOf(sw, names[k]) in r.edges
    decreases |names|
  {
    if k < |names| - 1 {
      AddSwitchLinksHas(g, sw, names[..|names| - 1], k);
    }
  }

  lemma DeviceInStep(lines: seq<string>, i: nat, sw: string, devices: seq<string>, k: nat)
    requires i < |lines| && GraphOf(lines[..i + 1]).Success? && k < |devices|
    requires ParseLine(lines[i]) == Some(Declaration(sw, DeviceLinks(devices)))
    ensures var g := GraphOf(lines[..i + 1]).value;
      devices[k] in g.vertexType && EdgeOf(sw, devices[k]) in g.edges && EdgeOf(sw, devices[k]) in g.edgeType
  {
    LineStep(lines, i, Declaration(sw, DeviceLinks(devices)));
    AddDevicesHas(GraphOf(lines[..i]).value, sw, devices, k);
  }

  /**
   * Every GUID of a `Nodes=` clause is a vertex of type `node`, joined to the
   * declaring switch by an edge of type `switch-to-node`.
   */
  lemma DeviceVertex(lines: seq<string>, i: nat, sw: string, devices: seq<string>, k: nat)
    requires GraphOf(lines).Success? && i < |lines|
    requires ParseLine(lines[i]) == Some(Declaration(sw, DeviceLinks(devices))) && k < |devices|
    ensures var g := GraphOf(lines).value; var d := devices[k];
      && d in g.vertices && d in g.vertexType && g.vertexType[d] == NodeType
      && EdgeOf(sw, d) in g.edges && EdgeOf(sw, d) in g.edgeType && g.edgeType[EdgeOf(sw, d)] == DeviceEdgeType
  {
    PrefixGrows(lines, i + 1);
    DeviceInStep(lines, i, sw, devices, k);
  }

  /** Every switch of a `Switches=` clause is a vertex joined to the declaring switch. */
  lemma SwitchEdge(lines: seq<string>, i: nat, sw: string, names: seq<string>, k: nat)
    requires GraphOf(lines).Success? && i < |lines|
    requires ParseLine(lines[i]) == Some(Declaration(sw, SwitchLinks(names))) && k < |names|
    ensures var g := GraphOf(lines).value;
      sw in g.vertices && names[k] in g.vertices && EdgeOf(sw, names[k]) in g.edges
  {
    PrefixGrows(lines, i + 1);
    SwitchInStep(lines, i, sw, names, k);
  }

  lemma SwitchInStep(lines: seq<string>, i: nat, sw: string, names: seq<string>, k: nat)
    requires i < |lines| && GraphOf(lines[..i + 1]).Success? && k < |names|
    requires ParseLine(lines[i]) == Some(Declaration(sw, SwitchLinks(names)))
    ensures var g := GraphOf(lines[..i + 1]).value;
      sw in g.vertices && names[k] in g.vertices && EdgeOf(sw, names[k]) in g.edges
  {
    LineStep(lines, i, Declaration(sw, SwitchLinks(names)));
    AddSwitchLinksHas(GraphOf(lines[..i]).value, sw, names, k);
  }

  /** Line `line` declares an edge from switch `u` to the listed switch or device `v`. */
  predicate Declares(line: string, u: string, v: string) {
    match ParseLine(line)
    case Some(Declaration(sw, SwitchLinks(names))) => u == sw && v in names
    case Some(Declaration(sw, DeviceLinks(devices))) => u == sw && v in devices
    case _ => false
  }

  /** Line `line` lists `d` in a `Nodes=` clause. */
  predicate DeclaresDevice(line: string, d: string) {
    match ParseLine(line)
    case Some(Declaration(_, DeviceLinks(devices))) => d in devices
    case _ => false
  }

  /** Every declared edge is in the graph. */
  lemma EdgeComplete(lines: seq<string>, i: nat, u: string, v: string)
    requires GraphOf(lines).Success? && i < |lines| && Declares(lines[i], u, v)
    ensures EdgeOf(u, v) in GraphOf(lines).value.edges
  {
    match ParseLine(lines[i])
    case Some(Declaration(sw, SwitchLinks(names))) =>
      var k :| 0 <= k < |names| && names[k] == v;
      SwitchEdge(lines, i, sw, names, k);
    case Some(Declaration(sw, DeviceLinks(devices))) =>
      var k :| 0 <= k < |devices| && devices[k] == v;
      DeviceVertex(lines, i, sw, devices, k);
  }

  lemma {:induction false} AddSwitchLinksFrom(g: Graph, sw: string, names: seq<string>, e: Edge)
    requires Valid(g) && e in AddSwitchLinks(g, sw, names).edges && e !in g.edges
    ensures exists k :: 0 <= k < |names| && e == EdgeOf(sw, names[k])
    decreases |names|
  {
    var n := |names| - 1;
    if e != EdgeOf(sw, names[n]) {
      AddSwitchLinksFrom(g, sw, names[..n], e);
      var k :| 0 <= k < n && e == EdgeOf(sw, names[..n][k]);
      assert names[..n][k] == names[k];
    }
  }

  lemma {:induction false} AddDevicesFrom(g: Graph, sw: string, devices: seq<string>, e: Edge)
    requires Valid(g) && e in AddDevices(g, sw, devices).edges && e !in g.edges
    ensures exists k :: 0 <= k < |devices| && e == EdgeOf(sw, devices[k])
    decreases |devices|
  {
    var n := |devices| - 1;
    if e != EdgeOf(sw, devices[n]) {
      AddDevicesFrom(g, sw, devices[..n], e);
      var k :| 0 <= k < n && e == EdgeOf(sw, devices[..n][k]);
      assert devices[..n][k] == devices[k];
    }
  }

  lemma {:induction false} AddDevicesTyped(g: Graph, sw: string, devices: seq<string>, d: string)
    requires Valid(g) && d in AddDevices(g, sw, devices).vertexType && d !in g.vertexType
    ensures d in devices
    decreases |devices|
  {
    var n := |devices| - 1;
    if d != devices[n] {
      AddDevicesTyped(g, sw, devices[..n], d);
    }
  }

  /** Every edge of the graph was declared by some line: there are no others. */
  lemma {:induction false} EdgeSound(lines: seq<string>, e: Edge)
    requires GraphOf(lines).Success? && e in GraphOf(lines).value.edges
    ensures exists i, u, v :: 0 <= i < |lines| && e == EdgeOf(u, v) && Declares(lines[i], u, v)
  {
    var n := |lines| - 1;
    var init := lines[..n];
    var g := GraphOf(init).value;
    if e in g.edges {
      EdgeSound(init, e);
      var i, u, v :| 0 <= i < |init| && e == EdgeOf(u, v) && Declares(init[i], u, v);
      assert init[i] == lines[i];
    } else {
      match ParseLine(lines[n])
      case Some(Declaration(sw, SwitchLinks(names))) =>
        AddSwitchLinksFrom(g, sw, names, e);
        var k :| 0 <= k < |names| && e == EdgeOf(sw, names[k]);
        assert Declares(lines[n], sw, names[k]);
      case Some(Declaration(sw, DeviceLinks(devices))) =>
        AddDevicesFrom(g, sw, devices, e);
        var k :| 0 <= k < |devices| && e == EdgeOf(sw, devices[k]);
        assert Declares(lines[n], sw, devices[k]);
    }
  }

  /** Line `line` has a `Nodes=` clause of switch `u` that lists `v`. */
  predicate DeclaresDeviceLink(line: string, u: string, v: string) {
    match ParseLine(line)
    case Some(Declaration(sw, DeviceLinks(devices))) => u == sw && v in devices
    case _ => false
  }

  lemma {:induction false} AddDevicesTypedEdge(g: Graph, sw: string, devices: seq<string>, e: Edge)
    requires Valid(g) && e in AddDevices(g, sw, devices).edgeType && e !in g.edgeType
    ensures exists k :: 0 <= k < |devices| && e == EdgeOf(sw, devices[k])
    decreases |devices|
  {
    var n := |devices| - 1;
    if e != EdgeOf(sw, devices[n]) {
      AddDevicesTypedEdge(g, sw, devices[..n], e);
      var k :| 0 <= k < n && e == EdgeOf(sw, devices[..n][k]);
      assert devices[..n][k] == devices[k];
    }
  }

  /**
   * Every typed edge is a device link that some `Nodes=` clause declares: an
   * edge that only a `Switches=` clause declares carries no `type`.
   */
  lemma {:induction false} TypedEdgeDeclared(lines: seq<string>, e: Edge)
    requires GraphOf(lines).Success? && e in GraphOf(lines).value.edgeType
    ensures exists i, u, v :: 0 <= i < |lines| && e == EdgeOf(u, v) && DeclaresDeviceLink(lines[i], u, v)
  {
    var n := |lines| - 1;
    var init := lines[..n];
    var g := GraphOf(init).value;
    if e in g.edgeType {
      TypedEdgeDeclared(init, e);
      var i, u, v :| 0 <= i < |init| && e == EdgeOf(u, v) && DeclaresDeviceLink(init[i], u, v);
      assert init[i] == lines[i];
    } else {
      match ParseLine(lines[n])
      case Some(Declaration(sw, DeviceLinks(devices))) =>
        AddDevicesTypedEdge(g, sw, devices, e);
        var k :| 0 <= k < |devices| && e == EdgeOf(sw, devices[k]);
        assert DeclaresDeviceLink(lines[n], sw, devices[k]);
    }
  }

  /** The vertices of type `node` are exactly the GUIDs listed in `Nodes=` clauses. */
  lemma DeviceVerticesExactly(lines: seq<string>, d: string)
    requires GraphOf(lines).Success?
    ensures d in GraphOf(lines).value.vertexType <==> exists i :: 0 <= i < |lines| && DeclaresDevice(lines[i], d)
  {
    if exists i :: 0 <= i < |lines| && DeclaresDevice(lines[i], d) {
      var i :| 0 <= i < |lines| && DeclaresDevice(lines[i], d);
      DeviceListed(lines, i, d);
    }
    if d in GraphOf(lines).value.vertexType {
      DeviceDeclared(lines, d);
    }
  }

  lemma DeviceListed(lines: seq<string>, i: nat, d: string)
    requires GraphOf(lines).Success? && i < |lines| && DeclaresDevice(lines[i], d)
    ensures d in GraphOf(lines).value.vertexType
  {
    var decl := ParseLine(lines[i]).value;
    var k :| 0 <= k < |decl.clause.devices| && decl.clause.devices[k] == d;
    DeviceVertex(lines, i, decl.switch, decl.clause.devices, k);
  }

  /** Every vertex of type `node` comes from a `Nodes=` clause. */
  lemma {:induction false} DeviceDeclared(lines: seq<string>, d: string)
    requires GraphOf(lines).Success? && d in GraphOf(lines).value.vertexType
    ensures exists i :: 0 <= i < |lines| && DeclaresDevice(lines[i], d)
  {
    var n := |lines| - 1;
    var init := lines[..n];
    if d in GraphOf(init).value.vertexType {
      DeviceDeclared(init, d);
      var i :| 0 <= i < |init| && DeclaresDevice(init[i], d);
      assert init[i] == lines[i];
    } else {
      var decl := ParseLine(lines[n]).value;
      AddDevicesTyped(GraphOf(init).value, decl.switch, decl.clause.devices, d);
      assert DeclaresDevice(lines[n], d);
    }
  }

  /** The vertices that some edge of `es` touches. */
  function Endpoints(es: set<Edge>): set<string> {
    set e, v | e in es && v in e :: v
  }

  /** No vertex is isolated: the vertices are exactly the end points of the edges. */
  predicate Covered(g: Graph) {
    g.vertices == Endpoints(g.edges)
  }

  lemma EndpointsAdd(es: set<Edge>, e: Edge)
    ensures Endpoints(es + {e}) == Endpoints(es) + e
  {
    forall v | v in e ensures v in Endpoints(es + {e}) {
      assert e in es + {e};
    }
  }

  lemma CoveredAddEdge(g: Graph, u: string, v: string, t: Option<string>)
    requires Valid(g) && Covered(g)
    ensures Covered(AddEdge(g, u, v, t))
  {
    EndpointsAdd(g.edges, EdgeOf(u, v));
  }

  lemma {:induction false} CoveredAddSwitchLinks(g: Graph, sw: string, names: seq<string>)
    requires Valid(g) && Covered(g)
    ensures Covered(AddSwitchLinks(g, sw, names))
    decreases |names|
  {
    if |names| > 0 {
      CoveredAddSwitchLinks(g, sw, names[..|names| - 1]);
      CoveredAddEdge(AddSwitchLinks(g, sw, names[..|names| - 1]), sw, names[|names| - 1], None);
    }
  }

  lemma {:induction false} CoveredAddDevices(g: Graph, sw: string, devices: seq<string>)
    requires Valid(g) && Covered(g)
    ensures Covered(AddDevices(g, sw, devices))
    decreases |devices|
  {
    if |devices| > 0 {
      CoveredAddDevices(g, sw, devices[..|devices| - 1]);
      CoveredAddDevice(AddDevices(g, sw, devices[..|devices| - 1]), sw, devices[|devices| - 1]);
    }
  }

  /** A device vertex added together with its edge is not isolated. */
  lemma CoveredAddDevice(g: Graph, sw: string, d: string)
    requires Valid(g) && Covered(g)
    ensures Covered(AddEdge(AddNode(g, d, NodeType), sw, d, Some(DeviceEdgeType)))
  {
    EndpointsAdd(g.edges, EdgeOf(sw, d));
    assert g.vertices + {d} + {sw, d} == g.vertices + EdgeOf(sw, d);
  }

  /** Every vertex of the graph lies on an edge (a bare switch line creates no vertex). */
  lemma {:induction false} NoIsolatedVertex(lines: seq<string>)
    requires GraphOf(lines).Success?
    ensures Covered(GraphOf(lines).value)
  {
    if |lines| == 0 {
      assert Endpoints({}) == {};
    } else {
      var init := lines[..|lines| - 1];
      NoIsolatedVertex(init);
      var g := GraphOf(init).value;
      match ParseLine(lines[|lines| - 1]).value
      case Declaration(sw, SwitchLinks(names)) => CoveredAddSwitchLinks(g, sw, names);
      case Declaration(sw, DeviceLinks(devices)) => CoveredAddDevices(g, sw, devices);
      case _ =>
    }
  }

  /**
   * A comment line, a whitespace-only line, a line with a single field, and a
   * line whose clause key is neither `Switches` nor `Nodes` add no vertex and
   * no edge (the single-field and unknown-key lines provided their first field
   * holds the `=` the switch-name slice needs).
   */
  lemma LineAddsNothing(lines: seq<string>, line: string)
    requires || StartsWith(line, "#")
             || AllSpace(line)
             || (|SplitWs(line)| >= 1 && '=' in SplitWs(line)[0]
                 && (|SplitWs(line)| == 1 || Split(SplitWs(line)[1], '=')[0] !in {"Switches", "Nodes"}))
    ensures GraphOf(lines + [line]) == GraphOf(lines)
  {
    var all := lines + [line];
    assert all[..|all| - 1] == lines;
    if !(StartsWith(line, "#") || AllSpace(line)) {
      SplitOnePiece(SplitWs(line)[0], '=');
    }
  }

  /** Parsing fails exactly when some line raises, and the failure names the first such line. */
  lemma {:induction false} GraphFailure(lines: seq<string>)
    ensures GraphOf(lines).Failure? <==> exists i :: 0 <= i < |lines| && ParseLine(lines[i]).None?
    ensures GraphOf(lines).Failure? ==>
      var e := GraphOf(lines).error;
      && e.MalformedLine? && e.index < |lines| && e.text == lines[e.index] && ParseLine(e.text).None?
      && forall j :: 0 <= j < e.index ==> ParseLine(lines[j]).Some?
  {
    if |lines| > 0 {
      var init := lines[..|lines| - 1];
      GraphFailure(init);
      forall j | 0 <= j < |init| ensures init[j] == lines[j] { }
    }
  }

  /**
   * A well-formed declaration `SwitchName=<sw> <key>=<list>` (optionally
   * newline-terminated) names switch `sw`; its clause is the comma-split list
   * for the keys `Switches` and `Nodes`, and any other key is ignored.
   */
  lemma ParseDeclaration(sw: string, key: string, list: string, newline: bool)
    requires NoSpace(sw) && '=' !in sw
    requires |key| > 0 && NoSpace(key) && '=' !in key
    requires NoSpace(list) && '=' !in list
    ensures var line := "SwitchName=" + sw + " " + key + "=" + list;
      ParseLine(if newline then line + "\n" else line) == Some(Declaration(sw,
        if key == "Switches" then SwitchLinks(Split(list, ','))
        else if key == "Nodes" then DeviceLinks(Split(list, ','))
        else OtherClause(key)))
  {
    var line := "SwitchName=" + sw + " " + key + "=" + list;
    var text := if newline then line + "\n" else line;
    DeclarationFields(sw, key, list, newline);
    SwitchNameField(sw);
    KeyValue(key, list);
    ParseFields(text, "SwitchName=" + sw, key + "=" + list, sw, key, list);
  }

  lemma DeclarationFields(sw: string, key: string, list: string, newline: bool)
    requires NoSpace(sw) && |key| > 0 && NoSpace(key) && NoSpace(list)
    ensures var line := "SwitchName=" + sw + " " + key + "=" + list;
      var text := if newline then line + "\n" else line;
      text[0] == 'S' && SplitWs(text) == ["SwitchName=" + sw, key + "=" + list]
  {
    var first := "SwitchName=" + sw;
    var second := key + "=" + list;
    assert first + " " + second == "SwitchName=" + sw + " " + key + "=" + list;
    Fields(first, second, newline);
  }

  lemma SwitchNameField(sw: string)
    requires '=' !in sw
    ensures Split("SwitchName=" + sw, '=') == ["SwitchName", sw]
  {
    assert "SwitchName=" + sw == "SwitchName" + "=" + sw;
    assert '=' !in "SwitchName";
    KeyValue("SwitchName", sw);
  }

  lemma KeyValue(key: string, value: string)
    requires '=' !in key && '=' !in value
    ensures Split(key + "=" + value, '=') == [key, value]
  {
    assert key + "=" + value == key + ['='] + value;
    SplitFirst(key, value, '=');
    SplitNoSep(value, '=');
  }

  lemma ParseFields(text: string, first: string, second: string, sw: string, key: string, list: string)
    requires |text| > 0 && text[0] == 'S'
    requires SplitWs(text) == [first, second]
    requires Split(first, '=') == ["SwitchName", sw] && Split(second, '=') == [key, list]
    ensures ParseLine(text) == Some(Declaration(sw,
        if key == "Switches" then SwitchLinks(Split(list, ','))
        else if key == "Nodes" then DeviceLinks(Split(list, ','))
        else OtherClause(key)))
  {
    assert !StartsWith(text, "#");
    assert !AllSpace(text);
  }

  /** A bare `SwitchName=<sw>` line declares the switch and no clause. */
  lemma ParseBareSwitch(sw: string)
    requires NoSpace(sw) && '=' !in sw
    ensures ParseLine("SwitchName=" + sw) == Some(Declaration(sw, NoClause))
  {
    var line := "SwitchName=" + sw;
    assert line[0] == 'S';
    SplitWsCons(line, "");
    assert line + "" == line;
    assert line == "SwitchName" + ['='] + sw;
    SplitFirst("SwitchName", sw, '=');
    SplitNoSep(sw, '=');
  }

  lemma Fields(first: string, second: string, newline: bool)
    requires |first| > 0 && NoSpace(first) && |second| > 0 && NoSpace(second)
    ensures SplitWs(if newline then first + " " + second + "\n" else first + " " + second) == [first, second]
  {
    var tail := if newline then "\n" else "";
    assert (if newline then first + " " + second + "\n" else first + " " + second) == first + " " + second + tail;
    FieldsBefore(first, second, tail);
  }

  lemma FieldsBefore(first: string, second: string, tail: string)
    requires |first| > 0 && NoSpace(first) && |second| > 0 && NoSpace(second) && AllSpace(tail)
    ensures SplitWs(first + " " + second + tail) == [first, second]
  {
    var word := second + tail;
    var rest := [' '] + word;
    calc {
      SplitWs(first + " " + second + tail);
      { assert first + " " + second + tail == first + rest; }
      SplitWs(first + rest);
      { SplitWsCons(first, rest); }
      [first] + SplitWs(rest);
      { SplitWsSpaceHead(' ', word); }
      [first] + SplitWs(word);
      { SplitWsCons(second, tail); }
      [first] + ([second] + SplitWs(tail));
      { SplitWsAllSpace(tail); }
      [first, second];
    }
  }
}
