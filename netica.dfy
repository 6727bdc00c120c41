/** `NeticaGraph`: one compiled belief network seen through the engine. The network is a
    fixed sequence of nodes, each a name and its state names; the engine's belief query is
    an uninterpreted function of the findings entered so far, and entering a finding is
    recorded as the (node name, state name) pair handed to the engine. */
module Netica {
  import opened Wrappers

  datatype Node = Node(name: string, states: seq<string>)

  /** The engine's node object. The model identifies a node object by the index of the node. */
  datatype Handle = Handle(index: nat)

  /** What callers may pass as a node: an index, a name, a node object, or any other value. */
  datatype NodeRef = ByIndex(index: int) | ByName(name: string) | ByHandle(handle: Handle) | OtherNodeRef

  /** What callers may pass as a state: an index, a name, or any other value. */
  datatype StateRef = StateIndex(index: int) | StateName(name: string) | OtherStateRef

  datatype GraphError =
    | NodeIndexOutOfRange(index: int)                 // the engine has no node at this index
    | UnknownNodeName(name: string)                   // KeyError from `node_names`
    | ForeignHandle(handle: Handle)                   // a node object not of this network
    | NodeTypeError                                   // TypeError: not a str, int or node
    | StateIndexOutOfRange(index: int)                // the engine has no state at this index
    | UnknownStateName(node: string, state: string)   // AssertionError: not one of the node's states
    | StateTypeError                                  // TypeError: not a str or int

  /** A node and one of its states, by name: what `EnterFinding` and `GetNodeBelief` send to the engine. */
  datatype NamedState = NamedState(node: string, state: string)

  /** The engine's belief in a state, given the findings entered so far (uninterpreted). */
  type BeliefEngine = (seq<NamedState>, NamedState) -> real

  /** `{node_name(i): i for i in range(num_nodes())}`: every node name is a key, each key
      maps to a node of that name, and when names repeat the highest index wins. */
  function NameIndex(nodes: seq<Node>): (m: map<string, nat>)
    ensures forall i :: 0 <= i < |nodes| ==> nodes[i].name in m
    ensures forall name :: name in m ==> m[name] < |nodes| && nodes[m[name]].name == name
    ensures forall name :: name in m ==> forall j :: m[name] < j < |nodes| ==> nodes[j].name != name
    decreases |nodes|
  {
    if nodes == [] then map[]
    else
      var last := |nodes| - 1;
      var prev := NameIndex(nodes[..last]);
      NameIndexStep(nodes, prev);
      prev[nodes[last].name := last]
  }

  /** One step of the comprehension: mapping the last node's name to its index keeps the
      name index of the nodes before it a name index. */
  lemma NameIndexStep(nodes: seq<Node>, prev: map<string, nat>)
    requires nodes != []
    requires var before := nodes[..|nodes| - 1];
      && (forall i :: 0 <= i < |before| ==> before[i].name in prev)
      && (forall name :: name in prev ==> prev[name] < |before| && before[prev[name]].name == name)
      && (forall name :: name in prev ==> forall j :: prev[name] < j < |before| ==> before[j].name != name)
    ensures var m := prev[nodes[|nodes| - 1].name := |nodes| - 1];
      && (forall i :: 0 <= i < |nodes| ==> nodes[i].name in m)
      && (forall name :: name in m ==> m[name] < |nodes| && nodes[m[name]].name == name)
      && (forall name :: name in m ==> forall j :: m[name] < j < |nodes| ==> nodes[j].name != name)
  {
    var last := |nodes| - 1;
    var m := prev[nodes[last].name := last];
    assert forall i :: 0 <= i < last ==> nodes[..last][i] == nodes[i];
    forall name | name in m
      ensures m[name] < |nodes| && nodes[m[name]].name == name
      ensures forall j :: m[name] < j < |nodes| ==> nodes[j].name != name
    {
      if name != nodes[last].name {
        assert m[name] == prev[name];
      }
    }
  }

  class NeticaGraph {
    const nodes: seq<Node>
    const beliefOf: BeliefEngine
    /** `node_names`: built once, when the graph is made; being a constant, no method changes it. */
    const nodeNames: map<string, nat> := NameIndex(nodes)
    /** The findings handed to the engine so far, oldest first. */
    var findings: seq<NamedState>

    constructor (nodes: seq<Node>, beliefOf: BeliefEngine)
      ensures this.nodes == nodes && this.beliefOf == beliefOf
      ensures nodeNames == NameIndex(nodes)
      ensures findings == []
    {
      this.nodes := nodes;
      this.beliefOf := beliefOf;
      findings := [];
    }

    /** `num_nodes`: the length of the network's node list. */
    function NumNodes(): (n: nat)
      ensures n == |nodes|
    {
      |nodes|
    }

    /** `net_itr`: one node object per index, in index order. */
    method NetItr() returns (handles: seq<Handle>)
      ensures |handles| == NumNodes()
      ensures forall i :: 0 <= i < |handles| ==> GetNodeByIndex(i) == Ok(handles[i]) && handles[i].index == i
    {
      handles := [];
      var i := 0;
      while i < |nodes|
        invariant 0 <= i <= |nodes| && |handles| == i
        invariant forall k :: 0 <= k < i ==> handles[k] == Handle(k)
      {
        handles := handles + [Handle(i)];
        i := i + 1;
      }
    }

    function GetNodeByIndex(index: int): (r: Result<Handle, GraphError>)
      ensures r.Ok? <==> 0 <= index < NumNodes()
      ensures r.Ok? ==> r.value.index == index
    {
      if 0 <= index < |nodes| then Ok(Handle(index)) else Err(NodeIndexOutOfRange(index))
    }

    /** `get_node_by_name`: found exactly when some node has this name; the node found has
        the name, and no node after it does. */
    function GetNodeByName(name: string): (r: Result<Handle, GraphError>)
      ensures r.Ok? <==> exists i :: 0 <= i < |nodes| && nodes[i].name == name
      ensures r.Ok? ==> r.value.index < |nodes| && nodes[r.value.index].name == name
      ensures r.Ok? ==> forall j :: r.value.index < j < |nodes| ==> nodes[j].name != name
      ensures r.Err? ==> r.error == UnknownNodeName(name)
    {
      if name in nodeNames then GetNodeByIndex(nodeNames[name]) else Err(UnknownNodeName(name))
    }

    /** `get_node`: a name resolves by name, an index by index, a node object passes through. */
    function GetNode(node: NodeRef): (r: Result<Handle, GraphError>)
      ensures node.ByHandle? ==> r == Ok(node.handle)
      ensures node.OtherNodeRef? ==> r == Err(NodeTypeError)
    {
      match node
      case ByName(name) => GetNodeByName(name)
      case ByIndex(index) => GetNodeByIndex(index)
      case ByHandle(handle) => Ok(handle)
      case OtherNodeRef => Err(NodeTypeError)
    }

    /** `node_name`: resolving a name and asking for the node's name gives the same name back. */
    function NodeName(node: NodeRef): (r: Result<string, GraphError>)
      ensures r.Ok? ==> GetNode(node).Ok? && GetNode(node).value.index < |nodes|
      ensures r.Ok? ==> r.value == nodes[GetNode(node).value.index].name
      ensures node.ByName? ==> (r.Ok? <==> node.name in nodeNames) && (r.Ok? ==> r.value == node.name)
    {
      var h :- GetNode(node);
      if h.index < |nodes| then Ok(nodes[h.index].name) else Err(ForeignHandle(h))
    }

    /** `get_node_num_states`. */
    function GetNodeNumStates(node: NodeRef): (r: Result<nat, GraphError>)
      ensures r.Ok? ==> GetNode(node).Ok? && GetNode(node).value.index < |nodes|
      ensures r.Ok? ==> r.value == |nodes[GetNode(node).value.index].states|
    {
      var h :- GetNode(node);
      if h.index < |nodes| then Ok(|nodes[h.index].states|) else Err(ForeignHandle(h))
    }

    /** `get_node_state_name`. */
    function GetNodeStateName(node: NodeRef, index: int): (r: Result<string, GraphError>)
      ensures r.Ok? ==> GetNodeNumStates(node).Ok? && 0 <= index < GetNodeNumStates(node).value
      ensures r.Ok? ==> r.value == nodes[GetNode(node).value.index].states[index]
    {
      var h :- GetNode(node);
      if h.index >= |nodes| then Err(ForeignHandle(h))
      else if 0 <= index < |nodes[h.index].states| then Ok(nodes[h.index].states[index])
      else Err(StateIndexOutOfRange(index))
    }

    /** `get_node_state`: the name of the state at a given index, or a state name checked
        against the node's state names. Whatever succeeds is one of the node's state names. */
    function GetNodeState(node: NodeRef, state: StateRef): (r: Result<string, GraphError>)
      ensures r.Ok? ==> GetNode(node).Ok? && GetNode(node).value.index < |nodes|
      ensures r.Ok? ==> r.value in nodes[GetNode(node).value.index].states
      ensures state.StateIndex? ==> (r.Ok? <==> GetNodeStateName(node, state.index).Ok?)
      ensures state.StateName? && GetNode(node).Ok? && GetNode(node).value.index < |nodes| ==>
                (r.Ok? <==> state.name in nodes[GetNode(node).value.index].states)
      ensures state.StateName? && r.Ok? ==> r.value == state.name
      ensures state.OtherStateRef? ==> r.Err?
    {
      var h :- GetNode(node);
      if h.index >= |nodes| then Err(ForeignHandle(h))
      else
        match state
        case StateIndex(index) => GetNodeStateName(node, index)
        case StateName(name) =>
          var all := nodes[h.index].states;
          if name in all then Ok(name) else Err(UnknownStateName(nodes[h.index].name, name))
        case OtherStateRef => Err(StateTypeError)
    }

    /** The resolution `enter_finding` and `get_node_belief` both do before calling the engine:
        node first, then its name, then the state. */
    function Resolve(node: NodeRef, state: StateRef): (r: Result<NamedState, GraphError>)
    {
      var name :- NodeName(node);
      var stateName :- GetNodeState(node, state);
      Ok(NamedState(name, stateName))
    }

    /** `enter_finding`: hands the resolved (node, state) pair to the engine; a reference
        that does not resolve fails before anything is handed over. */
    method EnterFinding(node: NodeRef, state: StateRef) returns (r: Result<NamedState, GraphError>)
      modifies this
      ensures r == Resolve(node, state)
      ensures r.Ok? ==> findings == old(findings) + [r.value]
      ensures r.Err? ==> findings == old(findings)
    {
      r := Resolve(node, state);
      if r.Ok? {
        findings := findings + [r.value];
      }
    }

    /** `get_node_belief`: the engine's belief in the resolved state given the findings so far. */
    function GetNodeBelief(node: NodeRef, state: StateRef): (r: Result<real, GraphError>)
      reads this
      ensures r.Ok? <==> Resolve(node, state).Ok?
      ensures r.Ok? ==> r.value == beliefOf(findings, Resolve(node, state).value)
    {
      var query :- Resolve(node, state);
      Ok(beliefOf(findings, query))
    }
  }

  /** Round trip of `net_itr`, `node_name` and `get_node_by_name`: the name of node `i` leads
      back to node `i` exactly when no later node has the same name. */
  lemma NameRoundTrip(g: NeticaGraph, i: nat)
    requires i < g.NumNodes()
    ensures g.NodeName(ByHandle(Handle(i))) == Ok(g.nodes[i].name)
    ensures (g.GetNodeByName(g.nodes[i].name) == Ok(Handle(i)))
        <==> (forall j :: i < j < g.NumNodes() ==> g.nodes[j].name != g.nodes[i].name)
  {
    var name := g.nodes[i].name;
    var r := g.GetNodeByName(name);
    assert r.Ok? && r.value.index >= i;
  }

  /** With distinct node names, resolving node `i`'s name gives node `i`, as by index. */
  lemma DistinctNamesResolve(g: NeticaGraph)
    requires forall i, j :: 0 <= i < j < g.NumNodes() ==> g.nodes[i].name != g.nodes[j].name
    ensures forall i :: 0 <= i < g.NumNodes() ==> g.nodeNames[g.nodes[i].name] == i
    ensures forall i :: 0 <= i < g.NumNodes() ==> g.GetNode(ByName(g.nodes[i].name)) == g.GetNode(ByIndex(i))
  {
    forall i | 0 <= i < g.NumNodes()
      ensures g.nodeNames[g.nodes[i].name] == i
    {
      NameRoundTrip(g, i);
    }
  }

  /** `get_node` dispatches on the type of the reference: a `str` to `get_node_by_name`, an
      `int` to `get_node_by_index`; a node object passes through, anything else is a
      TypeError. */
  lemma GetNodeDispatch(g: NeticaGraph, node: NodeRef)
    ensures node.ByName? ==> g.GetNode(node) == g.GetNodeByName(node.name)
    ensures node.ByIndex? ==> g.GetNode(node) == g.GetNodeByIndex(node.index)
    ensures node.ByHandle? ==> g.GetNode(node) == Ok(node.handle)
    ensures node.OtherNodeRef? ==> g.GetNode(node) == Err(NodeTypeError)
  {
  }

  /** The node getters succeed exactly when the reference resolves to a node of this network:
      `node_name` and `get_node_num_states` then give its name and state count, and
      `get_node_state_name` succeeds exactly for an index below that count. `get_node_state`
      with an index gives the state at that index. */
  lemma NodeGettersOkIff(g: NeticaGraph, node: NodeRef, index: int)
    ensures var h := g.GetNode(node);
      && (g.NodeName(node).Ok? <==> h.Ok? && h.value.index < g.NumNodes())
      && (g.GetNodeNumStates(node).Ok? <==> h.Ok? && h.value.index < g.NumNodes())
      && (g.GetNodeStateName(node, index).Ok? <==>
            h.Ok? && h.value.index < g.NumNodes() && 0 <= index < |g.nodes[h.value.index].states|)
      && (g.GetNodeState(node, StateIndex(index)).Ok? ==>
            h.Ok? && h.value.index < g.NumNodes() && 0 <= index < |g.nodes[h.value.index].states|
            && g.GetNodeState(node, StateIndex(index)).value == g.nodes[h.value.index].states[index])
  {
  }

  /** By index: node `i` of the network has its name and state count, and its state `k` is the
      state at that index, for exactly the indices `0 .. count - 1`; entering it resolves to
      those names. */
  lemma IndexResolution(g: NeticaGraph, i: int, k: int)
    requires 0 <= i < g.NumNodes()
    ensures g.NodeName(ByIndex(i)) == Ok(g.nodes[i].name)
    ensures g.GetNodeNumStates(ByIndex(i)) == Ok(|g.nodes[i].states|)
    ensures g.GetNodeState(ByIndex(i), StateIndex(k)).Ok? <==> 0 <= k < |g.nodes[i].states|
    ensures 0 <= k < |g.nodes[i].states| ==>
      g.Resolve(ByIndex(i), StateIndex(k)) == Ok(NamedState(g.nodes[i].name, g.nodes[i].states[k]))
  {
  }

  /** Resolution succeeds exactly when both the node's name and the state do, and gives
      them; a failure is the first error met, the node's before the state's. */
  lemma ResolveSteps(g: NeticaGraph, node: NodeRef, state: StateRef)
    ensures g.Resolve(node, state).Ok? <==> g.NodeName(node).Ok? && g.GetNodeState(node, state).Ok?
    ensures g.Resolve(node, state).Ok? ==>
      g.Resolve(node, state).value == NamedState(g.NodeName(node).value, g.GetNodeState(node, state).value)
    ensures g.NodeName(node).Err? ==> g.Resolve(node, state) == Err(g.NodeName(node).error)
    ensures g.NodeName(node).Ok? && g.GetNodeState(node, state).Err? ==>
      g.Resolve(node, state) == Err(g.GetNodeState(node, state).error)
  {
  }

  /** `get_node` is idempotent: resolving the node object it returned gives it back. */
  lemma GetNodeIdempotent(g: NeticaGraph, node: NodeRef)
    requires g.GetNode(node).Ok?
    ensures g.GetNode(ByHandle(g.GetNode(node).value)) == g.GetNode(node)
  {
  }

  /** Resolving by names gives those same names back, and succeeds exactly when the node
      exists and the state is one of its state names. */
  lemma ResolveByNames(g: NeticaGraph, node: string, state: string)
    ensures (g.Resolve(ByName(node), StateName(state)).Ok?)
        <==> (node in g.nodeNames && state in g.nodes[g.nodeNames[node]].states)
    ensures (g.Resolve(ByName(node), StateName(state)).Ok?)
        ==> (g.Resolve(ByName(node), StateName(state)).value == NamedState(node, state))
  {
  }
}
