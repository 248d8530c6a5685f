/**
 The slot map of the FlexRay engine: per slot id, the LPDUs that all accepted node configurations
 put into that slot.

 The reference for the map is the plain list of LPDU identities in the order in which they were
 configured. Configuring a node appends to that list, removing an ECU filters it, and the map must
 always show, slot by slot, exactly what is on the list.
 */
module FlexraySlotMap {
  import opened Bytes
  import opened FlexrayLpdu

  datatype SlotItem = SlotItem(slotId: nat, lpdus: seq<Lpdu>)

  type SlotMap = seq<SlotItem>

  /** Index of the item for slot `id`, or -1 (vector_find). */
  function FindSlot(m: SlotMap, id: nat): (r: int)
    ensures -1 <= r < |m|
    ensures r >= 0 ==> m[r].slotId == id
    ensures r < 0 ==> forall i :: 0 <= i < |m| ==> m[i].slotId != id
  {
    if m == [] then -1
    else if m[|m| - 1].slotId == id then |m| - 1
    else FindSlot(m[..|m| - 1], id)
  }

  function LpdusAt(m: SlotMap, id: nat): seq<Lpdu> {
    var i := FindSlot(m, id);
    if i < 0 then [] else m[i].lpdus
  }

  /** Strictly ascending slot ids: sorted, and no slot twice. */
  predicate Sorted(m: SlotMap) {
    forall i, j :: 0 <= i < j < |m| ==> m[i].slotId < m[j].slotId
  }

  /** Replace the LPDUs of a slot, if the slot exists. */
  function WithLpdus(m: SlotMap, id: nat, lpdus: seq<Lpdu>): (r: SlotMap)
    ensures |r| == |m|
    ensures forall i :: 0 <= i < |m| ==> r[i].slotId == m[i].slotId
  {
    var i := FindSlot(m, id);
    if i < 0 then m else m[i := m[i].(lpdus := lpdus)]
  }

  /** In a sorted map an item is found at its own index. */
  lemma FindSorted(m: SlotMap, i: nat)
    requires Sorted(m) && i < |m|
    ensures FindSlot(m, m[i].slotId) == i
  {
  }

  lemma LpdusAtWithLpdus(m: SlotMap, id: nat, lpdus: seq<Lpdu>, other: nat)
    requires Sorted(m) && FindSlot(m, id) >= 0
    ensures Sorted(WithLpdus(m, id, lpdus))
    ensures LpdusAt(WithLpdus(m, id, lpdus), other) == if other == id then lpdus else LpdusAt(m, other)
  {
    var m' := WithLpdus(m, id, lpdus);
    assert Sorted(m');
    if FindSlot(m', other) >= 0 {
      FindSorted(m, FindSlot(m', other));
      FindSorted(m', FindSlot(m', other));
    }
  }

  /** vector_push of an empty slot followed by vector_sort, on a map that does not have the slot. */
  function InsertSlot(m: SlotMap, id: nat): SlotMap {
    if m == [] || m[|m| - 1].slotId < id then m + [SlotItem(id, [])]
    else InsertSlot(m[..|m| - 1], id) + [m[|m| - 1]]
  }

  lemma {:induction false} InsertSlotElements(m: SlotMap, id: nat)
    ensures forall s :: s in InsertSlot(m, id) <==> s in m || s == SlotItem(id, [])
    ensures |InsertSlot(m, id)| == |m| + 1
  {
    if m == [] || m[|m| - 1].slotId < id {
    } else {
      InsertSlotElements(m[..|m| - 1], id);
      assert m == m[..|m| - 1] + [m[|m| - 1]];
    }
  }

  lemma {:induction false} InsertSlotSorted(m: SlotMap, id: nat)
    requires Sorted(m) && FindSlot(m, id) < 0
    ensures Sorted(InsertSlot(m, id))
  {
    if m == [] || m[|m| - 1].slotId < id {
    } else {
      var init, last := m[..|m| - 1], m[|m| - 1];
      assert forall i :: 0 <= i < |init| ==> init[i] == m[i];
      InsertSlotSorted(init, id);
      var ins := InsertSlot(init, id);
      forall i | 0 <= i < |ins| ensures ins[i].slotId < last.slotId {
        InsertSlotElements(init, id);
        assert ins[i] in ins;
      }
    }
  }

  lemma LpdusAtMember(m: SlotMap, s: SlotItem)
    requires Sorted(m) && s in m
    ensures LpdusAt(m, s.slotId) == s.lpdus && FindSlot(m, s.slotId) >= 0
  {
    var i :| 0 <= i < |m| && m[i] == s;
    FindSorted(m, i);
  }

  lemma LpdusAtInsertSlot(m: SlotMap, id: nat, other: nat)
    requires Sorted(m) && FindSlot(m, id) < 0
    ensures Sorted(InsertSlot(m, id)) && FindSlot(InsertSlot(m, id), id) >= 0
    ensures LpdusAt(InsertSlot(m, id), other) == LpdusAt(m, other)
  {
    var r := InsertSlot(m, id);
    InsertSlotSorted(m, id);
    InsertSlotElements(m, id);
    LpdusAtMember(r, SlotItem(id, []));
    var i := FindSlot(m, other);
    if i >= 0 {
      assert m[i] in r;
      LpdusAtMember(r, m[i]);
    } else if FindSlot(r, other) >= 0 {
      assert r[FindSlot(r, other)] in r;
    }
  }

  // ---------------------------------------------------------------------------------------------
  // Configuring and removing
  // ---------------------------------------------------------------------------------------------

  /** One entry of the frame table of a node configuration. */
  datatype TableEntry = TableEntry(config: LpduConfig, status: LpduStatus)

  function NewLpdu(node: NodeId, e: TableEntry): Lpdu {
    Lpdu(node, e.config, e.status, None, 0, 0, false)
  }

  function AddLpdu(m: SlotMap, l: Lpdu): SlotMap {
    var id := l.config.slotId;
    var m1 := if FindSlot(m, id) < 0 then InsertSlot(m, id) else m;
    WithLpdus(m1, id, LpdusAt(m1, id) + [l])
  }

  function AddTable(m: SlotMap, node: NodeId, table: seq<TableEntry>): SlotMap {
    if table == [] then m
    else AddLpdu(AddTable(m, node, table[..|table| - 1]), NewLpdu(node, table[|table| - 1]))
  }

  /** Drop every LPDU of one ECU; the slots themselves stay. */
  function RemoveEcu(m: SlotMap, ecu: nat): (r: SlotMap)
    ensures |r| == |m|
  {
    seq(|m|, i requires 0 <= i < |m| => SlotItem(m[i].slotId, WithoutEcu(m[i].lpdus, ecu)))
  }

  function WithoutEcu(lpdus: seq<Lpdu>, ecu: nat): seq<Lpdu> {
    if lpdus == [] then []
    else if lpdus[0].node.ecu == ecu then WithoutEcu(lpdus[1..], ecu)
    else [lpdus[0]] + WithoutEcu(lpdus[1..], ecu)
  }

  // ---------------------------------------------------------------------------------------------
  // The reference: a list of identities
  // ---------------------------------------------------------------------------------------------

  datatype Identity = Identity(node: NodeId, config: LpduConfig)

  function IdentityOf(l: Lpdu): Identity {
    Identity(l.node, l.config)
  }

  function Identities(lpdus: seq<Lpdu>): (r: seq<Identity>)
    ensures |r| == |lpdus|
  {
    seq(|lpdus|, i requires 0 <= i < |lpdus| => IdentityOf(lpdus[i]))
  }

  function Keep(list: seq<Identity>, f: Identity -> bool): seq<Identity> {
    if list == [] then []
    else Keep(list[..|list| - 1], f) + if f(list[|list| - 1]) then [list[|list| - 1]] else []
  }

  function ForSlot(id: nat): Identity -> bool {
    (e: Identity) => e.config.slotId == id
  }

  function NotOfEcu(ecu: nat): Identity -> bool {
    (e: Identity) => e.node.ecu != ecu
  }

  function TableIdentities(node: NodeId, table: seq<TableEntry>): (r: seq<Identity>)
    ensures |r| == |table|
  {
    seq(|table|, i requires 0 <= i < |table| => Identity(node, table[i].config))
  }

  /** The map is sorted without duplicates and shows, slot by slot, exactly the list. */
  ghost predicate Shows(m: SlotMap, list: seq<Identity>) {
    && Sorted(m)
    && forall id :: Identities(LpdusAt(m, id)) == Keep(list, ForSlot(id))
  }

  lemma {:induction false} KeepConcat(a: seq<Identity>, b: seq<Identity>, f: Identity -> bool)
    ensures Keep(a + b, f) == Keep(a, f) + Keep(b, f)
  {
    if b == [] {
      assert a + b == a;
    } else {
      var b' := b[..|b| - 1];
      assert (a + b)[..|a + b| - 1] == a + b';
      KeepConcat(a, b', f);
    }
  }

  lemma {:induction false} KeepCommutes(a: seq<Identity>, f: Identity -> bool, g: Identity -> bool)
    ensures Keep(Keep(a, f), g) == Keep(Keep(a, g), f)
  {
    if a == [] {
    } else {
      var init, last := a[..|a| - 1], [a[|a| - 1]];
      KeepCommutes(init, f, g);
      KeepConcat(Keep(init, f), Keep(last, f), g);
      KeepConcat(Keep(init, g), Keep(last, g), f);
      assert Keep(last[..0], f) == [] && Keep(last[..0], g) == [];
      assert Keep(a, f) == Keep(init, f) + Keep(last, f);
      assert Keep(a, g) == Keep(init, g) + Keep(last, g);
    }
  }

  lemma AddLpduLookup(m: SlotMap, l: Lpdu, other: nat)
    requires Sorted(m)
    ensures Sorted(AddLpdu(m, l))
    ensures LpdusAt(AddLpdu(m, l), other) == LpdusAt(m, other) + if other == l.config.slotId then [l] else []
  {
    var id := l.config.slotId;
    var m1 := if FindSlot(m, id) < 0 then InsertSlot(m, id) else m;
    if FindSlot(m, id) < 0 {
      LpdusAtInsertSlot(m, id, other);
      LpdusAtInsertSlot(m, id, id);
    }
    LpdusAtWithLpdus(m1, id, LpdusAt(m1, id) + [l], other);
  }

  lemma KeepAppend(list: seq<Identity>, e: Identity, f: Identity -> bool)
    ensures Keep(list + [e], f) == Keep(list, f) + if f(e) then [e] else []
  {
    assert (list + [e])[..|list|] == list;
  }

  lemma IdentitiesAppend(lpdus: seq<Lpdu>, l: Lpdu)
    ensures Identities(lpdus + [l]) == Identities(lpdus) + [IdentityOf(l)]
  {
  }

  lemma AddLpduShows(m: SlotMap, list: seq<Identity>, l: Lpdu)
    requires Shows(m, list)
    ensures Shows(AddLpdu(m, l), list + [IdentityOf(l)])
  {
    var r, list' := AddLpdu(m, l), list + [IdentityOf(l)];
    forall other ensures Identities(LpdusAt(r, other)) == Keep(list', ForSlot(other))
    {
      AddLpduLookup(m, l, other);
      KeepAppend(list, IdentityOf(l), ForSlot(other));
      IdentitiesAppend(LpdusAt(m, other), l);
    }
    AddLpduLookup(m, l, 0);
  }

  /** Configuring a node appends its frame table. */
  lemma {:induction false} AddTableShows(m: SlotMap, list: seq<Identity>, node: NodeId, table: seq<TableEntry>)
    requires Shows(m, list)
    ensures Shows(AddTable(m, node, table), list + TableIdentities(node, table))
  {
    hide Shows, AddLpdu;
    if table == [] {
      assert list + TableIdentities(node, table) == list;
    } else {
      var init, last := table[..|table| - 1], table[|table| - 1];
      AddTableShows(m, list, node, init);
      AddLpduShows(AddTable(m, node, init), list + TableIdentities(node, init), NewLpdu(node, last));
      assert list + TableIdentities(node, init) + [IdentityOf(NewLpdu(node, last))]
          == list + TableIdentities(node, table);
    }
  }

  lemma {:induction false} IdentitiesWithoutEcu(lpdus: seq<Lpdu>, ecu: nat)
    ensures Identities(WithoutEcu(lpdus, ecu)) == Keep(Identities(lpdus), NotOfEcu(ecu))
  {
    if lpdus == [] {
    } else {
      var head, tail := [lpdus[0]], lpdus[1..];
      IdentitiesWithoutEcu(tail, ecu);
      assert Identities(lpdus) == Identities(head) + Identities(tail);
      KeepConcat(Identities(head), Identities(tail), NotOfEcu(ecu));
      assert Keep(Identities(head)[..0], NotOfEcu(ecu)) == [];
      var kept := WithoutEcu(tail, ecu);
      assert Identities(head + kept) == Identities(head) + Identities(kept);
    }
  }

  lemma FindRemoveEcu(m: SlotMap, ecu: nat, id: nat)
    requires Sorted(m)
    ensures Sorted(RemoveEcu(m, ecu))
    ensures FindSlot(RemoveEcu(m, ecu), id) == FindSlot(m, id)
  {
    var r := RemoveEcu(m, ecu);
    var i := FindSlot(m, id);
    if i >= 0 {
      FindSorted(r, i);
    }
  }

  /** Removing an ECU filters the list. */
  lemma RemoveEcuShows(m: SlotMap, list: seq<Identity>, ecu: nat)
    requires Shows(m, list)
    ensures Shows(RemoveEcu(m, ecu), Keep(list, NotOfEcu(ecu)))
  {
    forall id ensures Identities(LpdusAt(RemoveEcu(m, ecu), id)) == Keep(Keep(list, NotOfEcu(ecu)), ForSlot(id))
    {
      FindRemoveEcu(m, ecu, id);
      IdentitiesWithoutEcu(LpdusAt(m, id), ecu);
      KeepCommutes(list, NotOfEcu(ecu), ForSlot(id));
      assert LpdusAt(RemoveEcu(m, ecu), id) == WithoutEcu(LpdusAt(m, id), ecu);
    }
    FindRemoveEcu(m, ecu, 0);
  }

  /** Replacing the LPDUs of a slot by LPDUs with the same identities shows the same list. */
  lemma WithLpdusShows(m: SlotMap, list: seq<Identity>, id: nat, lpdus: seq<Lpdu>)
    requires Shows(m, list) && Identities(lpdus) == Identities(LpdusAt(m, id))
    ensures Shows(WithLpdus(m, id, lpdus), list)
  {
    if FindSlot(m, id) >= 0 {
      forall other ensures Identities(LpdusAt(WithLpdus(m, id, lpdus), other)) == Keep(list, ForSlot(other)) {
        LpdusAtWithLpdus(m, id, lpdus, other);
      }
      LpdusAtWithLpdus(m, id, lpdus, id);
    }
  }

  // ---------------------------------------------------------------------------------------------
  // The configuration list
  // ---------------------------------------------------------------------------------------------

  /** The frame table that a node has configured. */
  datatype NodeTable = NodeTable(node: NodeId, table: seq<TableEntry>)

  /** The identities that the tables of the list configure, in order. */
  function ConfigIdentities(configs: seq<NodeTable>): seq<Identity> {
    if configs == [] then []
    else TableIdentities(configs[0].node, configs[0].table) + ConfigIdentities(configs[1..])
  }

  /** The list after a node has configured a table; an empty one is not kept. */
  function WithTable(configs: seq<NodeTable>, node: NodeId, table: seq<TableEntry>): seq<NodeTable> {
    if table == [] then configs else configs + [NodeTable(node, table)]
  }

  function WithoutTables(configs: seq<NodeTable>, ecu: nat): seq<NodeTable> {
    if configs == [] then []
    else if configs[0].node.ecu == ecu then WithoutTables(configs[1..], ecu)
    else [configs[0]] + WithoutTables(configs[1..], ecu)
  }

  lemma {:induction false} ConfigIdentitiesAppend(configs: seq<NodeTable>, t: NodeTable)
    ensures ConfigIdentities(configs + [t]) == ConfigIdentities(configs) + TableIdentities(t.node, t.table)
  {
    if configs == [] {
      assert [t][1..] == [];
    } else {
      assert (configs + [t])[1..] == configs[1..] + [t];
      ConfigIdentitiesAppend(configs[1..], t);
    }
  }

  lemma {:induction false} KeepTable(node: NodeId, table: seq<TableEntry>, ecu: nat)
    ensures Keep(TableIdentities(node, table), NotOfEcu(ecu)) ==
            if node.ecu == ecu then [] else TableIdentities(node, table)
  {
    if table != [] {
      var init := table[..|table| - 1];
      KeepTable(node, init, ecu);
      assert TableIdentities(node, table)[..|table| - 1] == TableIdentities(node, init);
    }
  }

  /** Removing the tables of an ECU removes exactly its identities. */
  lemma {:induction false} ConfigIdentitiesWithout(configs: seq<NodeTable>, ecu: nat)
    ensures ConfigIdentities(WithoutTables(configs, ecu)) == Keep(ConfigIdentities(configs), NotOfEcu(ecu))
  {
    hide Keep, TableIdentities;
    if configs == [] {
      KeepNothing(NotOfEcu(ecu));
    } else {
      var t, rest := configs[0], configs[1..];
      ConfigIdentitiesWithout(rest, ecu);
      KeepTable(t.node, t.table, ecu);
      KeepConcat(TableIdentities(t.node, t.table), ConfigIdentities(rest), NotOfEcu(ecu));
      var kept := WithoutTables(rest, ecu);
      assert ([t] + kept)[1..] == kept;
    }
  }

  lemma KeepNothing(f: Identity -> bool)
    ensures Keep([], f) == []
  {
  }

  /** The map shows exactly the tables of the configuration list. */
  ghost predicate ShowsConfigs(m: SlotMap, configs: seq<NodeTable>) {
    Shows(m, ConfigIdentities(configs))
  }

  lemma AddConfigShows(m: SlotMap, configs: seq<NodeTable>, node: NodeId, table: seq<TableEntry>)
    requires ShowsConfigs(m, configs)
    ensures ShowsConfigs(AddTable(m, node, table), WithTable(configs, node, table))
  {
    hide Shows;
    AddTableShows(m, ConfigIdentities(configs), node, table);
    ConfigIdentitiesAppend(configs, NodeTable(node, table));
  }

  lemma RemoveConfigsShows(m: SlotMap, configs: seq<NodeTable>, ecu: nat)
    requires ShowsConfigs(m, configs)
    ensures ShowsConfigs(RemoveEcu(m, ecu), WithoutTables(configs, ecu))
  {
    hide Shows;
    RemoveEcuShows(m, ConfigIdentities(configs), ecu);
    ConfigIdentitiesWithout(configs, ecu);
  }
}
