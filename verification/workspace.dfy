/** `VerilogWorkspace` (public/Verilog.js:190-299): the registry of modules,
    module instances and wires. The three maps draw their keys from one
    shared counter, and removing a module or an instance also removes the
    wires attached to it. */
module Workspace {
  import opened Wrappers
  import opened Verilog

  datatype VerilogWorkspace = VerilogWorkspace(
    nextObjectId: nat,
    modules: map<nat, Module>,
    instances: map<nat, ModuleInstance>,
    wires: map<nat, Wire>)

  /** Every key lies below the counter, and no key is used by two maps. */
  predicate IdsFresh(ws: VerilogWorkspace) {
    (forall id :: id in ws.modules ==> id < ws.nextObjectId)
    && (forall id :: id in ws.instances ==> id < ws.nextObjectId)
    && (forall id :: id in ws.wires ==> id < ws.nextObjectId)
    && (forall id :: id in ws.modules ==> id !in ws.instances && id !in ws.wires)
    && (forall id :: id in ws.instances ==> id !in ws.wires)
  }

  /** Both ends of `w` name live instances, with the module ids those
      instances use, at ports that exist; the two ports are compatible and
      the wire has their width. */
  predicate WireResolves(ws: VerilogWorkspace, w: Wire) {
    w.startInstanceId in ws.instances && w.endInstanceId in ws.instances
    && ws.instances[w.startInstanceId].moduleId == w.startModuleId
    && ws.instances[w.endInstanceId].moduleId == w.endModuleId
    && w.startModuleId in ws.modules && w.endModuleId in ws.modules
    && w.startPortIndex < ws.modules[w.startModuleId].PortCount()
    && w.endPortIndex < ws.modules[w.endModuleId].PortCount()
    && Compatible(ws.modules[w.startModuleId].ports[w.startPortIndex],
                  ws.modules[w.endModuleId].ports[w.endPortIndex])
    && w.size == ws.modules[w.startModuleId].ports[w.startPortIndex].size
  }

  /** The invariant every workspace the editor builds satisfies: fresh ids,
      every instance refers to a module, and every wire resolves. */
  predicate WellFormed(ws: VerilogWorkspace) {
    IdsFresh(ws)
    && (forall id :: id in ws.instances ==> ws.instances[id].moduleId in ws.modules)
    && (forall id :: id in ws.wires ==> WireResolves(ws, ws.wires[id]))
  }

  function NewWorkspace(): (ws: VerilogWorkspace)
    ensures WellFormed(ws) && ws.nextObjectId == 0
    ensures |ws.modules| == 0 && |ws.instances| == 0 && |ws.wires| == 0
  {
    VerilogWorkspace(0, map[], map[], map[])
  }

  /** A workspace after an `add…` call, and the id that call returned. */
  datatype Added = Added(ws: VerilogWorkspace, id: nat)

  /** `addModule`: stores the module under the current counter, returns that
      id and advances the counter. */
  function AddModule(ws: VerilogWorkspace, m: Module): (r: Added)
    ensures r.id == ws.nextObjectId && r.ws.nextObjectId == r.id + 1
    ensures r.id in r.ws.modules && r.ws.modules[r.id] == m
    ensures IdsFresh(ws) ==> IdsFresh(r.ws) && r.id !in ws.modules && r.id !in ws.instances && r.id !in ws.wires
    ensures IdsFresh(ws) ==> forall id :: id in ws.modules ==> id in r.ws.modules && r.ws.modules[id] == ws.modules[id]
    ensures r.ws.instances == ws.instances && r.ws.wires == ws.wires
  {
    Added(ws.(modules := ws.modules[ws.nextObjectId := m], nextObjectId := ws.nextObjectId + 1),
          ws.nextObjectId)
  }

  /** `addModuleInstance`. */
  function AddModuleInstance(ws: VerilogWorkspace, inst: ModuleInstance): (r: Added)
    ensures r.id == ws.nextObjectId && r.ws.nextObjectId == r.id + 1
    ensures r.id in r.ws.instances && r.ws.instances[r.id] == inst
    ensures IdsFresh(ws) ==> IdsFresh(r.ws) && r.id !in ws.modules && r.id !in ws.instances && r.id !in ws.wires
    ensures IdsFresh(ws) ==> forall id :: id in ws.instances ==> id in r.ws.instances && r.ws.instances[id] == ws.instances[id]
    ensures r.ws.modules == ws.modules && r.ws.wires == ws.wires
  {
    Added(ws.(instances := ws.instances[ws.nextObjectId := inst], nextObjectId := ws.nextObjectId + 1),
          ws.nextObjectId)
  }

  /** `addWire`. */
  function AddWire(ws: VerilogWorkspace, w: Wire): (r: Added)
    ensures r.id == ws.nextObjectId && r.ws.nextObjectId == r.id + 1
    ensures r.id in r.ws.wires && r.ws.wires[r.id] == w
    ensures IdsFresh(ws) ==> IdsFresh(r.ws) && r.id !in ws.modules && r.id !in ws.instances && r.id !in ws.wires
    ensures IdsFresh(ws) ==> forall id :: id in ws.wires ==> id in r.ws.wires && r.ws.wires[id] == ws.wires[id]
    ensures r.ws.modules == ws.modules && r.ws.instances == ws.instances
  {
    Added(ws.(wires := ws.wires[ws.nextObjectId := w], nextObjectId := ws.nextObjectId + 1),
          ws.nextObjectId)
  }

  /** `getModule`: `undefined` for an absent id becomes `None`. */
  function GetModule(ws: VerilogWorkspace, id: int): (r: Option<Module>)
    ensures r.Some? <==> id >= 0 && id in ws.modules
    ensures r.Some? ==> r.value == ws.modules[id]
  {
    if id >= 0 && id in ws.modules then Some(ws.modules[id]) else None
  }

  /** `getModuleInstance`. */
  function GetModuleInstance(ws: VerilogWorkspace, id: int): (r: Option<ModuleInstance>)
    ensures r.Some? <==> id >= 0 && id in ws.instances
    ensures r.Some? ==> r.value == ws.instances[id]
  {
    if id >= 0 && id in ws.instances then Some(ws.instances[id]) else None
  }

  /** `getWire`. */
  function GetWire(ws: VerilogWorkspace, id: int): (r: Option<Wire>)
    ensures r.Some? <==> id >= 0 && id in ws.wires
    ensures r.Some? ==> r.value == ws.wires[id]
  {
    if id >= 0 && id in ws.wires then Some(ws.wires[id]) else None
  }

  /** `getModuleFromInstance`: the module the instance refers to. `None`
      also stands for the source's `TypeError` when the instance is absent. */
  function GetModuleFromInstance(ws: VerilogWorkspace, id: int): (r: Option<Module>)
    ensures r.Some? <==> id >= 0 && id in ws.instances && ws.instances[id].moduleId in ws.modules
    ensures r.Some? ==> r.value == ws.modules[ws.instances[id].moduleId]
  {
    match GetModuleInstance(ws, id)
    case None => None
    case Some(inst) => GetModule(ws, inst.moduleId)
  }

  /** In a well-formed workspace every instance has its module. */
  lemma InstanceModuleResolves(ws: VerilogWorkspace, id: nat)
    requires WellFormed(ws) && id in ws.instances
    ensures GetModuleFromInstance(ws, id) == Some(ws.modules[ws.instances[id].moduleId])
  {
  }

  /** The `portIndex` argument of `removeWires`: a number, or `undefined`
      when a caller leaves it out. */
  datatype PortIndexArg = Index(i: int) | Undefined

  /** Which wires `removeWires` looks for: it takes the first mode that
      applies, in the order port, instance, module. `undefined` differs from
      `-1`, so a missing port index selects the port mode. */
  datatype RemovalMode = ByPort | ByInstance | ByModule

  function Mode(moduleInstanceId: int, portIndex: PortIndexArg): (r: RemovalMode)
    ensures r == ByPort <==> portIndex != Index(-1)
    ensures r == ByInstance <==> portIndex == Index(-1) && moduleInstanceId != -1
    ensures r == ByModule <==> portIndex == Index(-1) && moduleInstanceId == -1
  {
    if portIndex != Index(-1) then ByPort
    else if moduleInstanceId != -1 then ByInstance
    else ByModule
  }

  /** The wire test as the source writes it: the port mode compares the
      wire's port indices with the loop counter `i` of the later deletion
      loop, which is still `undefined` during the scan, so it never holds. */
  predicate MatchesAsWritten(w: Wire, moduleId: int, moduleInstanceId: int, portIndex: PortIndexArg) {
    match Mode(moduleInstanceId, portIndex)
    case ByPort => false
    case ByInstance => w.startInstanceId == moduleInstanceId || w.endInstanceId == moduleInstanceId
    case ByModule => w.startModuleId == moduleId || w.endModuleId == moduleId
  }

  /** The wire test as the comments beside it describe it: in port mode, a
      wire attached to that instance at that port. */
  predicate Matches(w: Wire, moduleId: int, moduleInstanceId: int, portIndex: PortIndexArg) {
    match Mode(moduleInstanceId, portIndex)
    case ByPort =>
      (w.startInstanceId == moduleInstanceId && portIndex == Index(w.startPortIndex))
      || (w.endInstanceId == moduleInstanceId && portIndex == Index(w.endPortIndex))
    case ByInstance => w.startInstanceId == moduleInstanceId || w.endInstanceId == moduleInstanceId
    case ByModule => w.startModuleId == moduleId || w.endModuleId == moduleId
  }

  /** `removeWires` as written: keeps exactly the wires the test rejects. */
  function RemoveWiresAsWritten(ws: VerilogWorkspace, moduleId: int, moduleInstanceId: int,
                                portIndex: PortIndexArg): (r: VerilogWorkspace)
    ensures r.nextObjectId == ws.nextObjectId && r.modules == ws.modules && r.instances == ws.instances
    ensures forall id :: id in r.wires <==>
              id in ws.wires && !MatchesAsWritten(ws.wires[id], moduleId, moduleInstanceId, portIndex)
    ensures forall id :: id in r.wires ==> r.wires[id] == ws.wires[id]
  {
    ws.(wires := map id | id in ws.wires && !MatchesAsWritten(ws.wires[id], moduleId, moduleInstanceId, portIndex)
                   :: ws.wires[id])
  }

  /** `removeWires` with the port mode comparing against `portIndex`. */
  function RemoveWires(ws: VerilogWorkspace, moduleId: int, moduleInstanceId: int,
                       portIndex: PortIndexArg): (r: VerilogWorkspace)
    ensures r.nextObjectId == ws.nextObjectId && r.modules == ws.modules && r.instances == ws.instances
    ensures forall id :: id in r.wires <==>
              id in ws.wires && !Matches(ws.wires[id], moduleId, moduleInstanceId, portIndex)
    ensures forall id :: id in r.wires ==> r.wires[id] == ws.wires[id]
  {
    ws.(wires := map id | id in ws.wires && !Matches(ws.wires[id], moduleId, moduleInstanceId, portIndex)
                   :: ws.wires[id])
  }

  /** The first loop of `removeWires`: the ids of the wires the test
      accepts. The visiting order of the map's keys does not matter here,
      so any order is taken. */
  method CollectWires(ws: VerilogWorkspace, moduleId: int, moduleInstanceId: int,
                      portIndex: PortIndexArg) returns (wiresToRemove: seq<nat>)
    ensures forall id :: id in wiresToRemove <==>
              id in ws.wires && MatchesAsWritten(ws.wires[id], moduleId, moduleInstanceId, portIndex)
  {
    wiresToRemove := [];
    var unvisited := ws.wires.Keys;
    while unvisited != {}
      invariant unvisited <= ws.wires.Keys
      invariant forall id :: id in wiresToRemove ==> id in ws.wires && id !in unvisited
      invariant forall id :: id in ws.wires && id !in unvisited ==>
                  (id in wiresToRemove <==> MatchesAsWritten(ws.wires[id], moduleId, moduleInstanceId, portIndex))
      decreases |unvisited|
    {
      var id :| id in unvisited;
      if MatchesAsWritten(ws.wires[id], moduleId, moduleInstanceId, portIndex) {
        wiresToRemove := wiresToRemove + [id];
      }
      unvisited := unvisited - {id};
    }
  }

  /** The second loop of `removeWires`: `removeWire` for each collected id. */
  method DeleteWires(ws: VerilogWorkspace, ids: seq<nat>) returns (r: VerilogWorkspace)
    ensures r.nextObjectId == ws.nextObjectId && r.modules == ws.modules && r.instances == ws.instances
    ensures forall id :: id in r.wires <==> id in ws.wires && id !in ids
    ensures forall id :: id in r.wires ==> r.wires[id] == ws.wires[id]
  {
    r := ws;
    var i := 0;
    while i < |ids|
      invariant 0 <= i <= |ids|
      invariant r.nextObjectId == ws.nextObjectId && r.modules == ws.modules && r.instances == ws.instances
      invariant forall id :: id in r.wires <==> id in ws.wires && id !in ids[..i]
      invariant forall id :: id in r.wires ==> r.wires[id] == ws.wires[id]
    {
      r := RemoveWire(r, ids[i]);
      assert ids[..i + 1] == ids[..i] + [ids[i]];
      i := i + 1;
    }
    assert ids[..i] == ids;
  }

  /** `removeWires` as the source runs it: collect, then delete. */
  method RemoveWiresLoop(ws: VerilogWorkspace, moduleId: int, moduleInstanceId: int,
                         portIndex: PortIndexArg) returns (r: VerilogWorkspace)
    ensures r == RemoveWiresAsWritten(ws, moduleId, moduleInstanceId, portIndex)
  {
    var wiresToRemove := CollectWires(ws, moduleId, moduleInstanceId, portIndex);
    r := DeleteWires(ws, wiresToRemove);
    assert r.wires == RemoveWiresAsWritten(ws, moduleId, moduleInstanceId, portIndex).wires;
  }

  /** Outside the port mode the two tests agree, and every call inside
      public/Verilog.js passes a port index of `-1`. */
  lemma AsWrittenAgreesOutsidePortMode(ws: VerilogWorkspace, moduleId: int, moduleInstanceId: int)
    ensures RemoveWiresAsWritten(ws, moduleId, moduleInstanceId, Index(-1))
            == RemoveWires(ws, moduleId, moduleInstanceId, Index(-1))
  {
  }

  /** As written, the port mode removes nothing at all. */
  lemma PortModeRemovesNothing(ws: VerilogWorkspace, moduleId: int, moduleInstanceId: int, portIndex: PortIndexArg)
    requires portIndex != Index(-1)
    ensures RemoveWiresAsWritten(ws, moduleId, moduleInstanceId, portIndex) == ws
  {
    var r := RemoveWiresAsWritten(ws, moduleId, moduleInstanceId, portIndex);
    assert r.wires == ws.wires;
  }

  /** Corrected, the port mode removes exactly the wires attached to that
      instance at that port. */
  lemma PortModeRemovesAttachedWires(ws: VerilogWorkspace, moduleInstanceId: int, port: int, id: nat)
    requires port != -1 && id in ws.wires
    ensures var w := ws.wires[id];
      id !in RemoveWires(ws, -1, moduleInstanceId, Index(port)).wires <==>
        (w.startInstanceId == moduleInstanceId && w.startPortIndex == port)
        || (w.endInstanceId == moduleInstanceId && w.endPortIndex == port)
  {
  }

  /** `removeModule`: the module goes, and so does every wire recording it
      at either end; instances are left as they are. */
  function RemoveModule(ws: VerilogWorkspace, id: nat): (r: VerilogWorkspace)
    ensures id !in r.modules
    ensures forall k :: k in r.modules <==> k in ws.modules && k != id
    ensures forall k :: k in r.modules ==> r.modules[k] == ws.modules[k]
    ensures r.instances == ws.instances && r.nextObjectId == ws.nextObjectId
    ensures forall k :: k in r.wires ==> r.wires[k].startModuleId != id && r.wires[k].endModuleId != id
    ensures forall k :: k in ws.wires ==>
              (k in r.wires <==> ws.wires[k].startModuleId != id && ws.wires[k].endModuleId != id)
    ensures forall k :: k in r.wires ==> k in ws.wires && r.wires[k] == ws.wires[k]
  {
    RemoveWires(ws.(modules := ws.modules - {id}), id, -1, Index(-1))
  }

  /** `removeModuleInstance`: the instance goes, and so does every wire
      starting or ending at it; modules and other instances stay. */
  function RemoveModuleInstance(ws: VerilogWorkspace, id: nat): (r: VerilogWorkspace)
    ensures id !in r.instances
    ensures forall k :: k in r.instances <==> k in ws.instances && k != id
    ensures forall k :: k in r.instances ==> r.instances[k] == ws.instances[k]
    ensures r.modules == ws.modules && r.nextObjectId == ws.nextObjectId
    ensures forall k :: k in r.wires ==> r.wires[k].startInstanceId != id && r.wires[k].endInstanceId != id
    ensures forall k :: k in ws.wires ==>
              (k in r.wires <==> ws.wires[k].startInstanceId != id && ws.wires[k].endInstanceId != id)
    ensures forall k :: k in r.wires ==> k in ws.wires && r.wires[k] == ws.wires[k]
  {
    RemoveWires(ws.(instances := ws.instances - {id}), -1, id, Index(-1))
  }

  /** `removeWire`. */
  function RemoveWire(ws: VerilogWorkspace, id: nat): (r: VerilogWorkspace)
    ensures id !in r.wires
    ensures forall k :: k in r.wires <==> k in ws.wires && k != id
    ensures forall k :: k in r.wires ==> r.wires[k] == ws.wires[k]
    ensures r.modules == ws.modules && r.instances == ws.instances && r.nextObjectId == ws.nextObjectId
  {
    ws.(wires := ws.wires - {id})
  }

  /** Wires only ever disappear from `removeWires`, and those that stay are
      unchanged, whatever the arguments. */
  lemma RemoveWiresOnlyDeletes(ws: VerilogWorkspace, moduleId: int, moduleInstanceId: int, portIndex: PortIndexArg)
    ensures var r := RemoveWires(ws, moduleId, moduleInstanceId, portIndex);
      r.wires.Keys <= ws.wires.Keys && (forall k :: k in r.wires ==> r.wires[k] == ws.wires[k])
    ensures var r := RemoveWiresAsWritten(ws, moduleId, moduleInstanceId, portIndex);
      r.wires.Keys <= ws.wires.Keys && (forall k :: k in r.wires ==> r.wires[k] == ws.wires[k])
  {
  }

  /** A wire that resolves keeps resolving when only other things change:
      its instances, their module ids and its modules' ports stay. */
  lemma WireResolvesFrame(ws: VerilogWorkspace, ws': VerilogWorkspace, w: Wire)
    requires WireResolves(ws, w)
    requires w.startInstanceId in ws'.instances && w.endInstanceId in ws'.instances
    requires ws'.instances[w.startInstanceId].moduleId == ws.instances[w.startInstanceId].moduleId
    requires ws'.instances[w.endInstanceId].moduleId == ws.instances[w.endInstanceId].moduleId
    requires w.startModuleId in ws'.modules && w.endModuleId in ws'.modules
    requires ws'.modules[w.startModuleId].ports == ws.modules[w.startModuleId].ports
    requires ws'.modules[w.endModuleId].ports == ws.modules[w.endModuleId].ports
    ensures WireResolves(ws', w)
  {
  }

  lemma AddModulePreservesWellFormed(ws: VerilogWorkspace, m: Module)
    requires WellFormed(ws)
    ensures WellFormed(AddModule(ws, m).ws)
  {
    var r := AddModule(ws, m).ws;
    forall id | id in r.wires
      ensures WireResolves(r, r.wires[id])
    {
      WireResolvesFrame(ws, r, ws.wires[id]);
    }
  }

  /** An instance may be added once its module is there. */
  lemma AddModuleInstancePreservesWellFormed(ws: VerilogWorkspace, inst: ModuleInstance)
    requires WellFormed(ws) && inst.moduleId in ws.modules
    ensures WellFormed(AddModuleInstance(ws, inst).ws)
  {
    var r := AddModuleInstance(ws, inst).ws;
    forall id | id in r.wires
      ensures WireResolves(r, r.wires[id])
    {
      WireResolvesFrame(ws, r, ws.wires[id]);
    }
  }

  lemma AddWirePreservesWellFormed(ws: VerilogWorkspace, w: Wire)
    requires WellFormed(ws) && WireResolves(ws, w)
    ensures WellFormed(AddWire(ws, w).ws)
  {
    var r := AddWire(ws, w).ws;
    forall id | id in r.wires
      ensures WireResolves(r, r.wires[id])
    {
      if id == ws.nextObjectId {
        WireResolvesFrame(ws, r, w);
      } else {
        WireResolvesFrame(ws, r, ws.wires[id]);
      }
    }
  }

  lemma RemoveModuleInstancePreservesWellFormed(ws: VerilogWorkspace, id: nat)
    requires WellFormed(ws)
    ensures WellFormed(RemoveModuleInstance(ws, id))
  {
    var r := RemoveModuleInstance(ws, id);
    forall k | k in r.wires
      ensures WireResolves(r, r.wires[k])
    {
      WireResolvesFrame(ws, r, ws.wires[k]);
    }
  }

  /** Removing a module keeps the workspace well formed only when no
      instance still refers to it: instances are not cascaded. */
  lemma RemoveModulePreservesWellFormed(ws: VerilogWorkspace, id: nat)
    requires WellFormed(ws)
    requires forall k :: k in ws.instances ==> ws.instances[k].moduleId != id
    ensures WellFormed(RemoveModule(ws, id))
  {
    var r := RemoveModule(ws, id);
    forall k | k in r.wires
      ensures WireResolves(r, r.wires[k])
    {
      WireResolvesFrame(ws, r, ws.wires[k]);
    }
  }

  /** An instance whose module is removed is left dangling. */
  lemma RemoveModuleCanLeaveDanglingInstance(ws: VerilogWorkspace, id: nat, k: nat)
    requires k in ws.instances && ws.instances[k].moduleId == id
    ensures k in RemoveModule(ws, id).instances
    ensures !WellFormed(RemoveModule(ws, id))
  {
  }

  lemma RemoveWirePreservesWellFormed(ws: VerilogWorkspace, id: nat)
    requires WellFormed(ws)
    ensures WellFormed(RemoveWire(ws, id))
  {
    var r := RemoveWire(ws, id);
    forall k | k in r.wires
      ensures WireResolves(r, r.wires[k])
    {
      WireResolvesFrame(ws, r, ws.wires[k]);
    }
  }

  /** The edits the registry offers, for reasoning about a whole history. */
  datatype Edit =
    | AddModuleEdit(m: Module)
    | AddInstanceEdit(inst: ModuleInstance)
    | AddWireEdit(w: Wire)
    | RemoveModuleEdit(id: nat)
    | RemoveInstanceEdit(id: nat)
    | RemoveWireEdit(id: nat)

  /** One edit: the new workspace and, for an addition, the id returned. */
  function ApplyEdit(ws: VerilogWorkspace, e: Edit): (VerilogWorkspace, Option<nat>) {
    match e
    case AddModuleEdit(m) => var a := AddModule(ws, m); (a.ws, Some(a.id))
    case AddInstanceEdit(inst) => var a := AddModuleInstance(ws, inst); (a.ws, Some(a.id))
    case AddWireEdit(w) => var a := AddWire(ws, w); (a.ws, Some(a.id))
    case RemoveModuleEdit(id) => (RemoveModule(ws, id), None)
    case RemoveInstanceEdit(id) => (RemoveModuleInstance(ws, id), None)
    case RemoveWireEdit(id) => (RemoveWire(ws, id), None)
  }

  /** A whole history: the final workspace and the ids handed out, in
      order. */
  function ApplyEdits(ws: VerilogWorkspace, edits: seq<Edit>): (VerilogWorkspace, seq<nat>)
    decreases |edits|
  {
    if |edits| == 0 then (ws, [])
    else
      var (ws1, given) := ApplyEdit(ws, edits[0]);
      var (ws2, rest) := ApplyEdits(ws1, edits[1..]);
      (ws2, (if given.Some? then [given.value] else []) + rest)
  }

  /** Every key of a workspace, of any kind. */
  function AllIds(ws: VerilogWorkspace): set<nat> {
    ws.modules.Keys + ws.instances.Keys + ws.wires.Keys
  }

  /** One edit keeps the ids fresh, never moves the counter back, and an
      addition hands out the counter's old value, which no key used. */
  lemma ApplyEditStep(ws: VerilogWorkspace, e: Edit)
    requires IdsFresh(ws)
    ensures var (r, given) := ApplyEdit(ws, e);
      IdsFresh(r)
      && (given.Some? ==> given.value == ws.nextObjectId && r.nextObjectId == ws.nextObjectId + 1
                          && given.value !in AllIds(ws))
      && (given.None? ==> r.nextObjectId == ws.nextObjectId)
  {
  }

  /** Over any history the counter never goes back, the ids handed out
      strictly increase, each lies in the range the counter swept, and none
      was a key of the starting workspace: ids are never reused, whatever
      their kind. */
  lemma {:induction false} IdsNeverReused(ws: VerilogWorkspace, edits: seq<Edit>)
    requires IdsFresh(ws)
    ensures var (r, ids) := ApplyEdits(ws, edits);
      IdsFresh(r)
      && ws.nextObjectId <= r.nextObjectId
      && (forall i, j :: 0 <= i < j < |ids| ==> ids[i] < ids[j])
      && (forall i :: 0 <= i < |ids| ==> ws.nextObjectId <= ids[i] < r.nextObjectId)
    decreases |edits|
  {
    if |edits| > 0 {
      ApplyEditStep(ws, edits[0]);
      var (ws1, given) := ApplyEdit(ws, edits[0]);
      IdsNeverReused(ws1, edits[1..]);
    }
  }

  /** No id handed out over a history was a key of the starting workspace. */
  lemma IdsNeverReusedKeys(ws: VerilogWorkspace, edits: seq<Edit>)
    requires IdsFresh(ws)
    ensures var (r, ids) := ApplyEdits(ws, edits);
      forall i :: 0 <= i < |ids| ==> ids[i] !in AllIds(ws)
  {
    IdsNeverReused(ws, edits);
  }
}
