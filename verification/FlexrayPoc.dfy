/**
 Node states and the bus condition.

 Commands move the POC state of a node, the POC state decides what its transceiver shows, and the
 transceivers of all nodes together decide the condition of the bus, which in turn can push nodes
 out of normal operation.
 */
module FlexrayPoc {
  import opened Arithmetic
  import opened FlexrayLpdu

  /** `PocOther` is any number outside the enumeration; set_poc_state stores it unchecked. */
  datatype PocState =
    | DefaultConfig | PocConfig | Ready | Wakeup | Startup
    | NormalActive | NormalPassive | Halt | Freeze | Undefined
    | PocOther(value: nat)

  datatype TcvrState = TcvrNone | NoPower | NoConnection | NoSignal | Cas | Wup | FrameSync | FrameError

  datatype PocCommand =
    | CommandNone | CommandConfig | CommandReady | CommandWakeup | CommandRun | CommandAllSlots
    | CommandHalt | CommandFreeze | CommandAllowColdstart | CommandNop | CommandOther(code: nat)

  datatype NodeState = NodeState(node: NodeId, poc: PocState, tcvr: TcvrState)

  /** What the transceiver of an unpowered node shows does not depend on its POC state. */
  function SetTransceiver(s: NodeState): NodeState {
    if s.tcvr.NoPower? then s
    else
      match s.poc
      case DefaultConfig | PocConfig => s.(tcvr := NoSignal)
      case Ready | Startup | NormalPassive => s.(tcvr := FrameError)
      case Wakeup => s.(tcvr := Wup)
      case NormalActive => s.(tcvr := FrameSync)
      case Halt | Freeze | Undefined => s.(tcvr := NoConnection)
      case PocOther(_) => s
  }

  function PocAfter(poc: PocState, command: PocCommand): PocState {
    match poc
    case DefaultConfig => if command.CommandConfig? then PocConfig else poc
    case PocConfig => if command.CommandReady? then Ready else poc
    case Ready => if command.CommandConfig? then PocConfig else if command.CommandRun? then NormalActive else poc
    case Wakeup | Startup | NormalPassive => NormalActive
    case NormalActive => if command.CommandHalt? then Halt else if command.CommandFreeze? then Freeze else poc
    case Halt => if command.CommandConfig? then DefaultConfig else poc
    case Freeze | Undefined | PocOther(_) => poc
  }

  /** process_poc_command: no command at all does not even refresh the transceiver. */
  function AfterCommand(s: NodeState, command: PocCommand): NodeState {
    if command.CommandNone? then s else SetTransceiver(s.(poc := PocAfter(s.poc, command)))
  }

  /** The command makes the node enter DefaultConfig, which releases the configuration of its ECU. */
  predicate EntersDefaultConfig(s: NodeState, command: PocCommand) {
    s.poc.Halt? && command.CommandConfig?
  }

  /** Node states are kept per ECU and controller. */
  function Consolidated(n: NodeId): NodeId {
    n.(swc := 0)
  }

  /** The 64-bit node_id that the union of the three fields reads as. */
  function NodeKey(n: NodeId): nat {
    n.ecu + n.cc * 0x1_0000 + n.swc * 0x1_0000_0000
  }

  function FindNode(nodes: seq<NodeState>, n: NodeId): (r: int)
    ensures -1 <= r < |nodes|
    ensures r >= 0 ==> nodes[r].node == n
    ensures r < 0 ==> forall i :: 0 <= i < |nodes| ==> nodes[i].node != n
  {
    if nodes == [] then -1
    else if nodes[|nodes| - 1].node == n then |nodes| - 1
    else FindNode(nodes[..|nodes| - 1], n)
  }

  /** vector_push followed by vector_sort. */
  function InsertNode(nodes: seq<NodeState>, s: NodeState): (r: seq<NodeState>)
    ensures forall t :: t in r ==> t in nodes || t == s
  {
    if nodes == [] || NodeKey(nodes[|nodes| - 1].node) <= NodeKey(s.node) then nodes + [s]
    else InsertNode(nodes[..|nodes| - 1], s) + [nodes[|nodes| - 1]]
  }

  function Register(nodes: seq<NodeState>, n: NodeId, pwrOn: bool, pwrOff: bool): seq<NodeState> {
    var id := Consolidated(n);
    var i := FindNode(nodes, id);
    if i < 0 then
      InsertNode(nodes, NodeState(id, DefaultConfig, if pwrOff && !pwrOn then NoPower else NoConnection))
    else if pwrOn then nodes[i := nodes[i].(tcvr := NoConnection)]
    else if pwrOff then nodes[i := nodes[i].(tcvr := NoPower)]
    else nodes
  }

  function SetPoc(nodes: seq<NodeState>, n: NodeId, poc: PocState): seq<NodeState> {
    var i := FindNode(nodes, Consolidated(n));
    if i < 0 then nodes else nodes[i := SetTransceiver(nodes[i].(poc := poc))]
  }

  function PushCommand(nodes: seq<NodeState>, n: NodeId, command: PocCommand): seq<NodeState> {
    var i := FindNode(nodes, Consolidated(n));
    if i < 0 then nodes else nodes[i := SetTransceiver(AfterCommand(nodes[i], command))]
  }

  function SetPower(nodes: seq<NodeState>, n: NodeId, on: bool): seq<NodeState> {
    var i := FindNode(nodes, Consolidated(n));
    if i < 0 then nodes
    else if on && nodes[i].tcvr.NoPower? then nodes[i := nodes[i].(tcvr := NoConnection, poc := DefaultConfig)]
    else if !on then nodes[i := nodes[i].(tcvr := NoPower, poc := DefaultConfig)]
    else nodes
  }

  function RegisterVcn(vcs: seq<NodeState>, n: NodeId): seq<NodeState> {
    if FindNode(vcs, n) >= 0 then vcs else InsertNode(vcs, NodeState(n, DefaultConfig, FrameSync))
  }

  function CountSync(nodes: seq<NodeState>): nat {
    if nodes == [] then 0
    else CountSync(nodes[..|nodes| - 1]) + if nodes[|nodes| - 1].tcvr.FrameSync? then 1 else 0
  }

  function Condition(sources: nat): TcvrState {
    if sources == 0 then NoSignal else if sources == 1 then FrameError else FrameSync
  }

  function PushPassive(s: NodeState): NodeState {
    if s.poc.NormalActive? then SetTransceiver(s.(poc := NormalPassive)) else s
  }

  /** The node states after calculate_bus_condition has counted `sources` synchronising nodes. */
  function AfterCondition(nodes: seq<NodeState>, sources: nat): (r: seq<NodeState>)
    ensures |r| == |nodes|
  {
    if sources == 1 then seq(|nodes|, i requires 0 <= i < |nodes| => PushPassive(nodes[i])) else nodes
  }

  // ---------------------------------------------------------------------------------------------
  // Reachable states
  // ---------------------------------------------------------------------------------------------

  /** A node that drives frame sync is in normal operation. */
  predicate Synced(nodes: seq<NodeState>) {
    forall i :: 0 <= i < |nodes| && nodes[i].tcvr.FrameSync? ==> nodes[i].poc.NormalActive?
  }

  /** Virtual coldstart nodes always drive frame sync. */
  predicate AllSync(vcs: seq<NodeState>) {
    forall i :: 0 <= i < |vcs| ==> vcs[i].tcvr.FrameSync?
  }

  /** What can reach the node states: PDUs from the stream, power changes, and simulation steps. */
  datatype Event =
    | ConfigPdu(node: NodeId, vcns: seq<NodeId>, initialPoc: PocState)
    | StatusPdu(node: NodeId, command: PocCommand)
    | Power(node: NodeId, on: bool)
    | Progress

  datatype BusState = BusState(nodes: seq<NodeState>, vcs: seq<NodeState>)

  function RegisterVcns(vcs: seq<NodeState>, vcns: seq<NodeId>): seq<NodeState> {
    if vcns == [] then vcs else RegisterVcn(RegisterVcns(vcs, vcns[..|vcns| - 1]), vcns[|vcns| - 1])
  }

  function Sources(b: BusState): nat {
    CountSync(b.vcs) + CountSync(b.nodes)
  }

  function Handle(b: BusState, e: Event): BusState {
    match e
    case ConfigPdu(node, vcns, poc) =>
      BusState(SetPoc(Register(b.nodes, node, true, false), node, poc), RegisterVcns(b.vcs, vcns))
    case StatusPdu(node, command) => b.(nodes := PushCommand(b.nodes, node, command))
    case Power(node, on) => b.(nodes := SetPower(b.nodes, node, on))
    case Progress => b.(nodes := AfterCondition(b.nodes, Sources(b)))
  }

  function HandleAll(b: BusState, events: seq<Event>): BusState {
    if events == [] then b else Handle(HandleAll(b, events[..|events| - 1]), events[|events| - 1])
  }

  /** Assigning a POC state directly breaks the rule exactly when the number is unknown and the node syncs. */
  lemma SetPocSynced(nodes: seq<NodeState>, n: NodeId, poc: PocState)
    requires Synced(nodes)
    ensures var i := FindNode(nodes, Consolidated(n));
            Synced(SetPoc(nodes, n, poc)) <==> !(i >= 0 && nodes[i].tcvr.FrameSync? && poc.PocOther?)
  {
    var i := FindNode(nodes, Consolidated(n));
    if i >= 0 {
      assert SetPoc(nodes, n, poc)[i] == SetTransceiver(nodes[i].(poc := poc));
    }
  }

  lemma RegisterSynced(nodes: seq<NodeState>, n: NodeId, pwrOn: bool, pwrOff: bool)
    requires Synced(nodes)
    ensures Synced(Register(nodes, n, pwrOn, pwrOff))
  {
    var r := Register(nodes, n, pwrOn, pwrOff);
    forall i | 0 <= i < |r| && r[i].tcvr.FrameSync? ensures r[i].poc.NormalActive? {
      assert r[i] in r;
    }
  }

  lemma {:induction false} FindInserted(nodes: seq<NodeState>, s: NodeState)
    requires FindNode(nodes, s.node) < 0
    ensures var i := FindNode(InsertNode(nodes, s), s.node); i >= 0 && InsertNode(nodes, s)[i] == s
  {
    if nodes == [] || NodeKey(nodes[|nodes| - 1].node) <= NodeKey(s.node) {
    } else {
      FindInserted(nodes[..|nodes| - 1], s);
      assert InsertNode(nodes, s)[..|InsertNode(nodes, s)| - 1] == InsertNode(nodes[..|nodes| - 1], s);
    }
  }

  /** Through a configuration PDU even an unknown number is harmless: registering has just dropped the sync. */
  lemma ConfigSynced(nodes: seq<NodeState>, n: NodeId, poc: PocState)
    requires Synced(nodes)
    ensures Synced(SetPoc(Register(nodes, n, true, false), n, poc))
  {
    var id := Consolidated(n);
    var r := Register(nodes, n, true, false);
    RegisterSynced(nodes, n, true, false);
    SetPocSynced(r, n, poc);
    if FindNode(nodes, id) < 0 {
      FindInserted(nodes, NodeState(id, DefaultConfig, NoConnection));
    } else {
      UpdateKeepsFind(nodes, FindNode(nodes, id), r[FindNode(nodes, id)]);
    }
  }

  lemma {:induction false} UpdateKeepsFind(nodes: seq<NodeState>, i: nat, s: NodeState)
    requires i < |nodes| && s.node == nodes[i].node && FindNode(nodes, s.node) == i
    ensures FindNode(nodes[i := s], s.node) == i
  {
    if i < |nodes| - 1 {
      var init := nodes[..|nodes| - 1];
      UpdateKeepsFind(init, i, s);
      assert nodes[i := s][..|nodes| - 1] == init[i := s];
    }
  }

  lemma {:induction false} VcnsSync(vcs: seq<NodeState>, vcns: seq<NodeId>)
    requires AllSync(vcs)
    ensures AllSync(RegisterVcns(vcs, vcns))
  {
    if vcns == [] {
    } else {
      VcnsSync(vcs, vcns[..|vcns| - 1]);
      var before, r := RegisterVcns(vcs, vcns[..|vcns| - 1]), RegisterVcns(vcs, vcns);
      forall i | 0 <= i < |r| ensures r[i].tcvr.FrameSync? {
        assert r[i] in r;
      }
    }
  }

  lemma HandleSynced(b: BusState, e: Event)
    requires Synced(b.nodes) && AllSync(b.vcs)
    ensures Synced(Handle(b, e).nodes) && AllSync(Handle(b, e).vcs)
  {
    match e
    case ConfigPdu(node, vcns, poc) =>
      ConfigSynced(b.nodes, node, poc);
      VcnsSync(b.vcs, vcns);
    case StatusPdu(node, command) =>
    case Power(node, on) =>
    case Progress =>
  }

  /** In every reachable state, a node whose transceiver shows FrameSync is in NormalActive. */
  lemma {:induction false} FrameSyncMeansActive(events: seq<Event>)
    ensures var b := HandleAll(BusState([], []), events); Synced(b.nodes) && AllSync(b.vcs)
  {
    if events == [] {
    } else {
      FrameSyncMeansActive(events[..|events| - 1]);
      HandleSynced(HandleAll(BusState([], []), events[..|events| - 1]), events[|events| - 1]);
    }
  }

  lemma {:induction false} CountSyncZero(nodes: seq<NodeState>)
    ensures CountSync(nodes) == 0 <==> forall i :: 0 <= i < |nodes| ==> !nodes[i].tcvr.FrameSync?
  {
    if nodes == [] {
    } else {
      var init := nodes[..|nodes| - 1];
      CountSyncZero(init);
      if CountSync(nodes) == 0 {
        forall i | 0 <= i < |nodes| ensures !nodes[i].tcvr.FrameSync? {
          if i < |init| { assert init[i] == nodes[i]; }
        }
      } else if CountSync(init) != 0 {
        var i :| 0 <= i < |init| && init[i].tcvr.FrameSync?;
        assert nodes[i].tcvr.FrameSync?;
      }
    }
  }

  lemma {:induction false} CountSyncAll(vcs: seq<NodeState>)
    requires AllSync(vcs)
    ensures CountSync(vcs) == |vcs|
  {
    if vcs != [] { CountSyncAll(vcs[..|vcs| - 1]); }
  }

  lemma {:induction false} InsertLonger(nodes: seq<NodeState>, s: NodeState)
    ensures |InsertNode(nodes, s)| == |nodes| + 1
  {
    if nodes != [] && NodeKey(nodes[|nodes| - 1].node) > NodeKey(s.node) { InsertLonger(nodes[..|nodes| - 1], s); }
  }

  lemma {:induction false} VcnsStay(vcs: seq<NodeState>, vcns: seq<NodeId>)
    ensures |RegisterVcns(vcs, vcns)| >= |vcs|
  {
    if vcns != [] {
      var before, n := RegisterVcns(vcs, vcns[..|vcns| - 1]), vcns[|vcns| - 1];
      VcnsStay(vcs, vcns[..|vcns| - 1]);
      InsertLonger(before, NodeState(n, DefaultConfig, FrameSync));
    }
  }

  /** Virtual coldstart nodes are sources for good, and count in full. */
  lemma {:induction false} ColdstartNodesCount(b: BusState, events: seq<Event>)
    requires AllSync(b.vcs)
    ensures var b' := HandleAll(b, events);
            && AllSync(b'.vcs) && |b'.vcs| >= |b.vcs|
            && Sources(b') == |b'.vcs| + CountSync(b'.nodes)
  {
    hide AllSync, CountSync, RegisterVcns;
    if events != [] {
      var init, last := HandleAll(b, events[..|events| - 1]), events[|events| - 1];
      ColdstartNodesCount(b, events[..|events| - 1]);
      if last.ConfigPdu? {
        VcnsSync(init.vcs, last.vcns);
        VcnsStay(init.vcs, last.vcns);
      }
    }
    CountSyncAll(HandleAll(b, events).vcs);
  }

  /** With two virtual coldstart nodes the bus is synchronised, and no event takes that away. */
  lemma TwoColdstartNodesSync(b: BusState, events: seq<Event>)
    requires AllSync(b.vcs) && 2 <= |b.vcs|
    ensures Condition(Sources(HandleAll(b, events))) == FrameSync
  {
    ColdstartNodesCount(b, events);
  }

  /** With a single source, no registered node stays in normal operation or keeps driving frame sync. */
  lemma SingleSourceIsPassive(b: BusState)
    requires Synced(b.nodes) && Sources(b) == 1
    ensures var nodes := Handle(b, Progress).nodes;
            forall i :: 0 <= i < |nodes| ==> !nodes[i].poc.NormalActive? && !nodes[i].tcvr.FrameSync?
  {
  }

  /**
   A lone source never comes back by itself: simulation steps alone, however many, keep the bus out
   of FrameSync once one of them has seen fewer than two sources.
   */
  lemma {:induction false} NoSelfRecovery(b: BusState, n: nat)
    requires Synced(b.nodes) && AllSync(b.vcs) && Sources(b) < 2
    ensures var b' := HandleAll(b, seq(n, _ => Progress));
            Condition(Sources(b')) != FrameSync && Synced(b'.nodes) && b'.vcs == b.vcs
  {
    if n == 0 {
      assert seq(n, _ => Progress) == [];
    } else {
      var steps := seq(n, _ => Progress);
      assert steps[..|steps| - 1] == seq(n - 1, _ => Progress);
      NoSelfRecovery(b, n - 1);
      var before := HandleAll(b, steps[..|steps| - 1]);
      var after := Handle(before, Progress);
      HandleSynced(before, Progress);
      if Sources(before) == 1 {
        SingleSourceIsPassive(before);
        CountSyncZero(after.nodes);
      }
    }
  }

  /** Two or more sources leave every node state alone. */
  lemma {:induction false} TwoSourcesStay(b: BusState, n: nat)
    requires 2 <= Sources(b)
    ensures HandleAll(b, seq(n, _ => Progress)) == b
  {
    if n == 0 {
      assert seq(n, _ => Progress) == [];
    } else {
      var steps := seq(n, _ => Progress);
      assert steps[..|steps| - 1] == seq(n - 1, _ => Progress);
      TwoSourcesStay(b, n - 1);
    }
  }

  /**
   Between messages from the nodes, the bus is synchronised in every step or in none: what decides is
   whether there were two sources at first, and then no node changes either.
   */
  lemma SyncIsStable(b: BusState, n: nat)
    requires Synced(b.nodes) && AllSync(b.vcs)
    ensures var b' := HandleAll(b, seq(n, _ => Progress));
            && (Condition(Sources(b')) == FrameSync <==> 2 <= Sources(b))
            && (2 <= Sources(b) ==> b' == b)
  {
    if 2 <= Sources(b) { TwoSourcesStay(b, n); } else { NoSelfRecovery(b, n); }
  }

  // ---------------------------------------------------------------------------------------------
  // The node list
  // ---------------------------------------------------------------------------------------------

  /** Ascending by key, and no node twice. */
  predicate Ordered(nodes: seq<NodeState>) {
    forall i, j :: 0 <= i < j < |nodes| ==>
                     NodeKey(nodes[i].node) <= NodeKey(nodes[j].node) && nodes[i].node != nodes[j].node
  }

  /** Within the widths of the fields, the key is the identity, so ascending means strictly ascending. */
  lemma KeyIsIdentity(m: NodeId, n: NodeId)
    requires m.ecu < 0x1_0000 && m.cc < 0x1_0000 && n.ecu < 0x1_0000 && n.cc < 0x1_0000
    ensures NodeKey(m) == NodeKey(n) <==> m == n
  {
    DivisionIsUnique(NodeKey(m), 0x1_0000, m.cc + m.swc * 0x1_0000, m.ecu);
    DivisionIsUnique(NodeKey(n), 0x1_0000, n.cc + n.swc * 0x1_0000, n.ecu);
    DivisionIsUnique(m.cc + m.swc * 0x1_0000, 0x1_0000, m.swc, m.cc);
    DivisionIsUnique(n.cc + n.swc * 0x1_0000, 0x1_0000, n.swc, n.cc);
  }

  lemma {:induction false} InsertOrdered(nodes: seq<NodeState>, s: NodeState)
    requires Ordered(nodes) && FindNode(nodes, s.node) < 0
    ensures Ordered(InsertNode(nodes, s)) && |InsertNode(nodes, s)| == |nodes| + 1
  {
    if nodes != [] && NodeKey(nodes[|nodes| - 1].node) > NodeKey(s.node) {
      var init, last := nodes[..|nodes| - 1], nodes[|nodes| - 1];
      InsertOrdered(init, s);
      var r := InsertNode(init, s);
      forall i | 0 <= i < |r| ensures NodeKey(r[i].node) <= NodeKey(last.node) && r[i].node != last.node {
        assert r[i] in r;
      }
    }
  }

  lemma {:induction false} VcnsOrdered(vcs: seq<NodeState>, vcns: seq<NodeId>)
    requires Ordered(vcs)
    ensures Ordered(RegisterVcns(vcs, vcns))
  {
    if vcns != [] {
      var before, n := RegisterVcns(vcs, vcns[..|vcns| - 1]), vcns[|vcns| - 1];
      VcnsOrdered(vcs, vcns[..|vcns| - 1]);
      if FindNode(before, n) < 0 { InsertOrdered(before, NodeState(n, DefaultConfig, FrameSync)); }
    }
  }

  lemma RegisterOrdered(nodes: seq<NodeState>, n: NodeId, pwrOn: bool, pwrOff: bool)
    requires Ordered(nodes)
    ensures Ordered(Register(nodes, n, pwrOn, pwrOff))
    ensures FindNode(Register(nodes, n, pwrOn, pwrOff), Consolidated(n)) >= 0
  {
    var id := Consolidated(n);
    if FindNode(nodes, id) < 0 {
      var s := NodeState(id, DefaultConfig, if pwrOff && !pwrOn then NoPower else NoConnection);
      InsertOrdered(nodes, s);
      FindInserted(nodes, s);
    } else {
      UpdateKeepsFind(nodes, FindNode(nodes, id), Register(nodes, n, pwrOn, pwrOff)[FindNode(nodes, id)]);
    }
  }

  /** States that keep the identities keep the order. */
  lemma SameNodesOrdered(nodes: seq<NodeState>, r: seq<NodeState>)
    requires Ordered(nodes) && |r| == |nodes| && forall i :: 0 <= i < |nodes| ==> r[i].node == nodes[i].node
    ensures Ordered(r)
  {
  }

  lemma HandleOrdered(b: BusState, e: Event)
    requires Ordered(b.nodes) && Ordered(b.vcs)
    ensures Ordered(Handle(b, e).nodes) && Ordered(Handle(b, e).vcs)
  {
    hide Ordered, Register, RegisterVcns;
    match e
    case ConfigPdu(node, vcns, poc) =>
      var r := Register(b.nodes, node, true, false);
      RegisterOrdered(b.nodes, node, true, false);
      VcnsOrdered(b.vcs, vcns);
      SameNodesOrdered(r, SetPoc(r, node, poc));
    case StatusPdu(_, _) => SameNodesOrdered(b.nodes, Handle(b, e).nodes);
    case Power(_, _) => SameNodesOrdered(b.nodes, Handle(b, e).nodes);
    case Progress => SameNodesOrdered(b.nodes, Handle(b, e).nodes);
  }

  /** In every reachable state both node lists are ascending and hold no node twice. */
  lemma {:induction false} NodesStayOrdered(events: seq<Event>)
    ensures var b := HandleAll(BusState([], []), events); Ordered(b.nodes) && Ordered(b.vcs)
  {
    if events != [] {
      NodesStayOrdered(events[..|events| - 1]);
      HandleOrdered(HandleAll(BusState([], []), events[..|events| - 1]), events[|events| - 1]);
    }
  }

  /** No command sequence leads out of Freeze. */
  lemma {:induction false} FreezeIsFinal(s: NodeState, commands: seq<PocCommand>)
    requires s.poc.Freeze?
    ensures AfterCommands(s, commands).poc.Freeze?
  {
    if commands != [] { FreezeIsFinal(s, commands[..|commands| - 1]); }
  }

  function AfterCommands(s: NodeState, commands: seq<PocCommand>): NodeState {
    if commands == [] then s
    else SetTransceiver(AfterCommand(AfterCommands(s, commands[..|commands| - 1]), commands[|commands| - 1]))
  }
}
