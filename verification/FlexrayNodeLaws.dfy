/**
 What happens to node states, said on states, commands and transceivers alone: a second account beside
 the functions that specify the operations.
 */
module FlexrayNodeLaws {
  import opened FlexrayLpdu
  import opened FlexrayPoc

  // ---------------------------------------------------------------------------------------------
  // The protocol operation control
  // ---------------------------------------------------------------------------------------------

  /** Every change that a command makes: from, by, to. */
  predicate Moves(from: PocState, command: PocCommand, to: PocState) {
    || (from == DefaultConfig && command == CommandConfig && to == PocConfig)
    || (from == PocConfig && command == CommandReady && to == Ready)
    || (from == Ready && command == CommandConfig && to == PocConfig)
    || (from == Ready && command == CommandRun && to == NormalActive)
    || (from in {Wakeup, Startup, NormalPassive} && command != CommandNone && to == NormalActive)
    || (from == NormalActive && command == CommandHalt && to == Halt)
    || (from == NormalActive && command == CommandFreeze && to == Freeze)
    || (from == Halt && command == CommandConfig && to == DefaultConfig)
  }

  /** A command changes the POC state exactly like this, and otherwise leaves it. */
  lemma CommandMoves(s: NodeState, command: PocCommand, to: PocState)
    ensures AfterCommand(s, command).node == s.node
    ensures to != s.poc ==> (AfterCommand(s, command).poc == to <==> Moves(s.poc, command, to))
    ensures AfterCommand(s, command).poc == s.poc <==> forall q :: !Moves(s.poc, command, q)
  {
    assert Moves(s.poc, command, AfterCommand(s, command).poc) || AfterCommand(s, command).poc == s.poc;
  }

  /** What the transceiver of a powered node shows in each POC state. */
  predicate Shows(poc: PocState, tcvr: TcvrState) {
    match tcvr
    case NoSignal => poc == DefaultConfig || poc == PocConfig
    case FrameError => poc == Ready || poc == Startup || poc == NormalPassive
    case Wup => poc == Wakeup
    case FrameSync => poc == NormalActive
    case NoConnection => poc == Halt || poc == Freeze || poc == Undefined
    case _ => false
  }

  /** A known POC state decides on what the transceiver of a powered node shows; without power nothing changes. */
  predicate IsRefreshed(before: TcvrState, after: NodeState) {
    if before == NoPower then after.tcvr == NoPower
    else if after.poc.PocOther? then after.tcvr == before
    else Shows(after.poc, after.tcvr)
  }

  /** After any status message of a known node, the transceiver shows the POC state; other nodes stay. */
  lemma PushedNode(nodes: seq<NodeState>, n: NodeId, command: PocCommand, i: nat)
    requires i < |nodes|
    ensures var r, at := PushCommand(nodes, n, command), FindNode(nodes, n.(swc := 0));
            && |r| == |nodes| && r[i].node == nodes[i].node
            && (i != at ==> r[i] == nodes[i])
            && (i == at ==> r[i].poc == AfterCommand(nodes[i], command).poc && IsRefreshed(nodes[i].tcvr, r[i]))
  {
  }

  lemma AssignedNode(nodes: seq<NodeState>, n: NodeId, poc: PocState, i: nat)
    requires i < |nodes|
    ensures var r, at := SetPoc(nodes, n, poc), FindNode(nodes, n.(swc := 0));
            && |r| == |nodes| && r[i].node == nodes[i].node
            && (i != at ==> r[i] == nodes[i])
            && (i == at ==> r[i].poc == poc && IsRefreshed(nodes[i].tcvr, r[i]))
  {
  }

  /** Config, Ready and Run bring a powered node from DefaultConfig to frame sync. */
  lemma StartsUp(s: NodeState)
    requires s.poc == DefaultConfig && s.tcvr != NoPower
    ensures AfterCommands(s, [CommandConfig, CommandReady, CommandRun]) == s.(poc := NormalActive, tcvr := FrameSync)
  {
    var commands := [CommandConfig, CommandReady, CommandRun];
    assert commands[..2] == [CommandConfig, CommandReady] && commands[..2][..1] == [CommandConfig];
    assert [CommandConfig][..0] == [];
    assert AfterCommands(s, []) == s;
    assert AfterCommands(s, [CommandConfig]) == s.(poc := PocConfig, tcvr := NoSignal);
    assert AfterCommands(s, [CommandConfig, CommandReady]) == s.(poc := Ready, tcvr := FrameError);
  }

  /** Halt and then Config lead back to DefaultConfig, and release the configuration of the ECU. */
  lemma ShutsDown(s: NodeState)
    requires s.poc == NormalActive && s.tcvr != NoPower
    ensures var halted := AfterCommand(s, CommandHalt);
            && halted == s.(poc := Halt, tcvr := NoConnection) && !EntersDefaultConfig(s, CommandHalt)
            && AfterCommand(halted, CommandConfig) == s.(poc := DefaultConfig, tcvr := NoSignal)
            && EntersDefaultConfig(halted, CommandConfig)
  {
  }

  /** The configuration of an ECU is released exactly when a command moves its node into DefaultConfig. */
  lemma ReleasesIff(s: NodeState, command: PocCommand)
    ensures EntersDefaultConfig(s, command) <==> Moves(s.poc, command, DefaultConfig)
  {
  }

  // ---------------------------------------------------------------------------------------------
  // Registering and power
  // ---------------------------------------------------------------------------------------------

  /** Nodes share a state per ECU and controller, whatever their software component. */
  lemma SharedState(nodes: seq<NodeState>, m: NodeId, n: NodeId, command: PocCommand, poc: PocState, on: bool)
    requires m.ecu == n.ecu && m.cc == n.cc
    ensures PushCommand(nodes, m, command) == PushCommand(nodes, n, command)
    ensures SetPoc(nodes, m, poc) == SetPoc(nodes, n, poc) && SetPower(nodes, m, on) == SetPower(nodes, n, on)
    ensures Register(nodes, m, on, !on) == Register(nodes, n, on, !on)
  {
  }

  /** The lists are ordered by software component, then controller, then ECU. */
  lemma KeyOrder(m: NodeId, n: NodeId)
    requires m.ecu < 0x1_0000 && m.cc < 0x1_0000 && n.ecu < 0x1_0000 && n.cc < 0x1_0000
    ensures NodeKey(m) < NodeKey(n) <==>
            m.swc < n.swc || (m.swc == n.swc && (m.cc < n.cc || (m.cc == n.cc && m.ecu < n.ecu)))
  {
  }

  lemma {:induction false} InsertedOnce(nodes: seq<NodeState>, s: NodeState)
    ensures multiset(InsertNode(nodes, s)) == multiset(nodes) + multiset{s}
  {
    if nodes != [] && NodeKey(nodes[|nodes| - 1].node) > NodeKey(s.node) {
      var init := nodes[..|nodes| - 1];
      InsertedOnce(init, s);
      assert nodes == init + [nodes[|nodes| - 1]];
    }
  }

  /** A new node starts in DefaultConfig, without connection or without power; the others stay. */
  lemma RegisteredNew(nodes: seq<NodeState>, n: NodeId, pwrOn: bool, pwrOff: bool)
    requires forall i :: 0 <= i < |nodes| ==> nodes[i].node != n.(swc := 0)
    ensures var s := NodeState(n.(swc := 0), DefaultConfig, if pwrOn || !pwrOff then NoConnection else NoPower);
            multiset(Register(nodes, n, pwrOn, pwrOff)) == multiset(nodes) + multiset{s}
  {
    InsertedOnce(nodes, NodeState(n.(swc := 0), DefaultConfig, if pwrOn || !pwrOff then NoConnection else NoPower));
  }

  /** Registering a known node forces its transceiver as asked, and nothing else. */
  lemma RegisteredAgain(nodes: seq<NodeState>, n: NodeId, pwrOn: bool, pwrOff: bool, i: nat)
    requires FindNode(nodes, n.(swc := 0)) >= 0 && i < |nodes|
    ensures var r := Register(nodes, n, pwrOn, pwrOff);
            && |r| == |nodes|
            && r[i] == if i != FindNode(nodes, n.(swc := 0)) || (!pwrOn && !pwrOff) then nodes[i]
                       else nodes[i].(tcvr := if pwrOn then NoConnection else NoPower)
  {
  }

  /** Switching a known node off, or an unpowered one on, puts it into DefaultConfig. */
  lemma PoweredNode(nodes: seq<NodeState>, n: NodeId, on: bool, i: nat)
    requires i < |nodes|
    ensures var r := SetPower(nodes, n, on);
            && |r| == |nodes|
            && r[i] == if i != FindNode(nodes, n.(swc := 0)) || (on && nodes[i].tcvr != NoPower) then nodes[i]
                       else NodeState(nodes[i].node, DefaultConfig, if on then NoConnection else NoPower)
  {
  }

  /** An unknown node is not touched by anything but registering. */
  lemma UnknownNode(nodes: seq<NodeState>, n: NodeId, command: PocCommand, poc: PocState, on: bool)
    requires forall i :: 0 <= i < |nodes| ==> nodes[i].node != n.(swc := 0)
    ensures PushCommand(nodes, n, command) == nodes && SetPoc(nodes, n, poc) == nodes && SetPower(nodes, n, on) == nodes
  {
  }

  /** A virtual coldstart node keeps its software component, is registered once, and shows frame sync. */
  lemma RegisteredVcn(vcs: seq<NodeState>, n: NodeId)
    ensures (exists i :: 0 <= i < |vcs| && vcs[i].node == n) ==> RegisterVcn(vcs, n) == vcs
    ensures (forall i :: 0 <= i < |vcs| ==> vcs[i].node != n) ==>
              multiset(RegisterVcn(vcs, n)) == multiset(vcs) + multiset{NodeState(n, DefaultConfig, FrameSync)}
  {
    InsertedOnce(vcs, NodeState(n, DefaultConfig, FrameSync));
  }

  // ---------------------------------------------------------------------------------------------
  // The bus condition
  // ---------------------------------------------------------------------------------------------

  /** The nodes of a list that show frame sync. */
  function Syncing(nodes: seq<NodeState>): set<nat> {
    set i: nat | i < |nodes| && nodes[i].tcvr == FrameSync
  }

  lemma {:induction false} CountIsSize(nodes: seq<NodeState>)
    ensures CountSync(nodes) == |Syncing(nodes)|
  {
    if nodes != [] {
      var n := |nodes| - 1;
      CountIsSize(nodes[..n]);
      if nodes[n].tcvr == FrameSync {
        assert Syncing(nodes) == Syncing(nodes[..n]) + {n};
      } else {
        assert Syncing(nodes) == Syncing(nodes[..n]);
      }
    }
  }

  /**
   A simulation step counts everyone that shows frame sync: none is no signal, one is a frame error
   and makes the active nodes passive with a frame error, more are frame sync and change nothing.
   */
  lemma ConditionIs(b: BusState, i: nat)
    requires i < |b.nodes|
    ensures var sources, r := |Syncing(b.vcs)| + |Syncing(b.nodes)|, Handle(b, Progress);
            && Condition(Sources(b)) ==
               (if sources == 0 then NoSignal else if sources == 1 then FrameError else FrameSync)
            && r.vcs == b.vcs && |r.nodes| == |b.nodes|
            && r.nodes[i] ==
               (if sources == 1 && b.nodes[i].poc == NormalActive
                then b.nodes[i].(poc := NormalPassive,
                                 tcvr := if b.nodes[i].tcvr == NoPower then NoPower else FrameError)
                else b.nodes[i])
  {
    CountIsSize(b.vcs);
    CountIsSize(b.nodes);
  }

  /** A configuration message leaves its node connected, in the configured state, showing it. */
  lemma ConfiguredNode(b: BusState, n: NodeId, vcns: seq<NodeId>, poc: PocState)
    requires Ordered(b.nodes)
    ensures var r := Handle(b, ConfigPdu(n, vcns, poc)).nodes;
            var i := FindNode(r, n.(swc := 0));
            && i >= 0 && r[i].poc == poc
            && (if poc.PocOther? then r[i].tcvr == NoConnection else Shows(poc, r[i].tcvr))
  {
    hide Register, FindNode, SetTransceiver, RegisterVcns, Ordered;
    var id := n.(swc := 0);
    var registered := Register(b.nodes, n, true, false);
    RegisterOrdered(b.nodes, n, true, false);
    IsConnected(b.nodes, n);
    var i := FindNode(registered, id);
    var r := SetPoc(registered, n, poc);
    AssignedNode(registered, n, poc, i);
    assert r == registered[i := r[i]];
    UpdateKeepsFind(registered, i, r[i]);
  }

  lemma IsConnected(nodes: seq<NodeState>, n: NodeId)
    requires Ordered(nodes)
    ensures var r := Register(nodes, n, true, false);
            var i := FindNode(r, n.(swc := 0));
            i >= 0 && r[i].tcvr == NoConnection
  {
    var id := n.(swc := 0);
    RegisterOrdered(nodes, n, true, false);
    if FindNode(nodes, id) < 0 {
      FindInserted(nodes, NodeState(id, DefaultConfig, NoConnection));
    } else {
      UpdateKeepsFind(nodes, FindNode(nodes, id), Register(nodes, n, true, false)[FindNode(nodes, id)]);
    }
  }
}
