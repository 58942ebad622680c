/** The editor's interaction controller (public/Canvas.js), drawing and
    page plumbing left aside: the mouse handlers, the hover bookkeeping,
    and the buttons and keys that add ports, clear ports and delete an
    instance. Each handler is a function from the controller state and the
    workspace to their new values.

    Where the source would throw a `TypeError` (a lookup that yields
    `undefined` and is then used), the handler stops at that point: what it
    changed before the failing statement stays changed, nothing after it
    happens. In a well-formed workspace with consistent hover state none of
    these failures occur. */
module Canvas {
  import opened Wrappers
  import opened Text
  import opened Geometry
  import opened Verilog
  import opened Workspace
  import opened Hover

  /** The controller's variables. Ids are `Option`s where the source uses
      `-1` for "none"; the two wire-start ids keep the source's plain
      numbers, since the source hands them on unchecked. */
  datatype Controller = Controller(
    mousePos: Point,
    dragStartPos: Point,
    moveStartPos: Point,
    movingModule: bool,
    creatingModule: bool,
    creatingWire: bool,
    wireStartInstance: int,
    wireStartPortIndex: int,
    hoveredInstance: Option<nat>,
    hoveredPort: Option<nat>,
    hoveredWire: Option<nat>,
    selected: Option<nat>)

  function NewController(): (c: Controller)
    ensures !c.movingModule && !c.creatingModule && !c.creatingWire
    ensures c.hoveredInstance.None? && c.hoveredPort.None? && c.hoveredWire.None? && c.selected.None?
    ensures c.wireStartInstance == -1 && c.wireStartPortIndex == -1
  {
    Controller(Point(0.0, 0.0), Point(0.0, 0.0), Point(0.0, 0.0), false, false, false,
               -1, -1, None, None, None, None)
  }

  /** The messages the source shows with `alert`. */
  datatype Notice = NoModuleSelected | InvalidPortName | InvalidBitWidth | IncompatiblePorts

  /** What a handler leaves behind. */
  datatype Outcome = Outcome(ctl: Controller, ws: VerilogWorkspace, notice: Option<Notice>)

  /** The gesture flags are all down. */
  predicate Released(c: Controller) {
    !c.movingModule && !c.creatingModule && !c.creatingWire
  }

  /** The hover, selection and wire-start state names things that exist:
      what `handleMouseDown`, `handleMouseUp` and the render loop rely on. */
  predicate HoverValid(c: Controller, ws: VerilogWorkspace) {
    (c.hoveredInstance.Some? ==> c.hoveredInstance.value in ws.instances)
    && (c.hoveredPort.Some? ==>
          c.hoveredInstance.Some? && GetPortPosition(ws, c.hoveredInstance.value, c.hoveredPort.value).Some?)
    && (c.selected.Some? ==> c.selected.value in ws.instances)
    && (c.creatingWire ==> GetPortPosition(ws, c.wireStartInstance, c.wireStartPortIndex).Some?)
  }

  /** `updateSelection`. While an instance is being moved the hover state
      is frozen; otherwise it is recomputed from the cursor, and a hovered
      wire takes the place of the hovered instance. While a new module is
      being dragged out nothing is hovered. */
  function UpdateSelection(c: Controller, ws: VerilogWorkspace): (r: Controller)
    ensures r == c.(hoveredInstance := r.hoveredInstance, hoveredPort := r.hoveredPort,
                    hoveredWire := r.hoveredWire)
    ensures c.movingModule ==> r.hoveredWire == c.hoveredWire
    ensures c.movingModule && !c.creatingModule ==> r == c
    ensures c.creatingModule ==> r.hoveredInstance.None? && r.hoveredPort.None?
    ensures !c.movingModule && r.hoveredWire.Some? ==> r.hoveredInstance.None? && r.hoveredPort.None?
    ensures !c.movingModule && r.hoveredInstance.Some? ==> InstanceHit(ws, c.mousePos, r.hoveredInstance.value)
    ensures !c.movingModule ==>
              var hi := UpdateHoveredModule(ws, c.mousePos);
              var hp := UpdateHoveredPort(ws, c.mousePos, hi);
              var hw := UpdateHoveredWire(ws, c.mousePos, hp);
              r.hoveredWire == hw
              && (c.creatingModule || (r.hoveredPort == hp && r.hoveredInstance == (if hw.Some? then None else hi)))
  {
    var c1 :=
      if c.movingModule then c
      else
        var hi := UpdateHoveredModule(ws, c.mousePos);
        var hp := UpdateHoveredPort(ws, c.mousePos, hi);
        var hw := UpdateHoveredWire(ws, c.mousePos, hp);
        c.(hoveredInstance := if hw.Some? then None else hi, hoveredPort := hp, hoveredWire := hw);
    if c.creatingModule then c1.(hoveredInstance := None, hoveredPort := None) else c1
  }

  /** Recomputed hover state names only things that exist. */
  lemma UpdateSelectionValid(c: Controller, ws: VerilogWorkspace)
    requires !c.movingModule
    requires c.selected.Some? ==> c.selected.value in ws.instances
    requires c.creatingWire ==> GetPortPosition(ws, c.wireStartInstance, c.wireStartPortIndex).Some?
    ensures HoverValid(UpdateSelection(c, ws), ws)
  {
    var hi := UpdateHoveredModule(ws, c.mousePos);
    var hp := UpdateHoveredPort(ws, c.mousePos, hi);
    if hp.Some? {
      assert GetPortPosition(ws, hi.value, hp.value).Some?;
    }
  }

  /** The render loop's move step (public/Canvas.js:740-750): the hovered
      instance's corner is placed where the press found it, shifted by how
      far the cursor has travelled since the press. Without such an
      instance the source fails and nothing moves. */
  function ApplyMove(c: Controller, ws: VerilogWorkspace): (r: VerilogWorkspace)
    ensures r.modules == ws.modules && r.wires == ws.wires && r.nextObjectId == ws.nextObjectId
    ensures r.instances.Keys == ws.instances.Keys
    ensures forall k :: k in ws.instances ==>
              r.instances[k].moduleId == ws.instances[k].moduleId && r.instances[k].name == ws.instances[k].name
              && r.instances[k].position.width == ws.instances[k].position.width
              && r.instances[k].position.height == ws.instances[k].position.height
    ensures forall k :: k in ws.instances && (!c.movingModule || c.hoveredInstance != Some(k)) ==>
              r.instances[k] == ws.instances[k]
    ensures c.movingModule && c.hoveredInstance.Some? && c.hoveredInstance.value in ws.instances ==>
              var p := r.instances[c.hoveredInstance.value].position;
              p.x - c.moveStartPos.x == c.mousePos.x - c.dragStartPos.x
              && p.y - c.moveStartPos.y == c.mousePos.y - c.dragStartPos.y
  {
    if c.movingModule && c.hoveredInstance.Some? && c.hoveredInstance.value in ws.instances then
      var id := c.hoveredInstance.value;
      var inst := ws.instances[id];
      var moved := inst.position.(x := c.moveStartPos.x + (c.mousePos.x - c.dragStartPos.x),
                                  y := c.moveStartPos.y + (c.mousePos.y - c.dragStartPos.y));
      ws.(instances := ws.instances[id := inst.(position := moved)])
    else ws
  }

  /** The render loop may run any number of times between two cursor
      events: the move step is idempotent. */
  lemma ApplyMoveIdempotent(c: Controller, ws: VerilogWorkspace)
    ensures ApplyMove(c, ApplyMove(c, ws)) == ApplyMove(c, ws)
  {
    var once := ApplyMove(c, ws);
    if c.movingModule && c.hoveredInstance.Some? && c.hoveredInstance.value in ws.instances {
      var id := c.hoveredInstance.value;
      assert ApplyMove(c, once).instances[id] == once.instances[id];
      assert ApplyMove(c, once).instances == once.instances;
    }
  }

  lemma ApplyMovePreservesWellFormed(c: Controller, ws: VerilogWorkspace)
    requires WellFormed(ws)
    ensures WellFormed(ApplyMove(c, ws))
  {
    var r := ApplyMove(c, ws);
    forall id | id in r.wires
      ensures WireResolves(r, r.wires[id])
    {
      WireResolvesFrame(ws, r, ws.wires[id]);
    }
  }

  /** `handleMouseMove`: the mouse moves, the hover state follows, and
      an instance being dragged follows the cursor. */
  function MouseMove(c: Controller, ws: VerilogWorkspace, p: Point): (r: Outcome)
    ensures r.notice.None? && r.ctl.mousePos == p
    ensures r.ctl.dragStartPos == c.dragStartPos && r.ctl.moveStartPos == c.moveStartPos
    ensures r.ctl.movingModule == c.movingModule && r.ctl.creatingModule == c.creatingModule
    ensures r.ctl.creatingWire == c.creatingWire && r.ctl.selected == c.selected
    ensures r.ws.modules == ws.modules && r.ws.wires == ws.wires && r.ws.nextObjectId == ws.nextObjectId
    ensures !c.movingModule ==> r.ws == ws
    ensures r.ctl == UpdateSelection(c.(mousePos := p), ws) && r.ws == ApplyMove(r.ctl, ws)
  {
    var c1 := UpdateSelection(c.(mousePos := p), ws);
    Outcome(c1, ApplyMove(c1, ws), None)
  }

  /** `handleModuleInstanceSelected`: the selected instance starts moving
      from where it stands. The source reads the module's name first, so
      an instance or module that is gone stops it before anything moves. */
  function HandleModuleInstanceSelected(c: Controller, ws: VerilogWorkspace): (r: Controller)
    requires c.selected.Some?
    ensures r.selected == c.selected
    ensures GetModuleFromInstance(ws, c.selected.value).Some? ==>
              r.movingModule
              && r.moveStartPos == Point(ws.instances[c.selected.value].position.x,
                                         ws.instances[c.selected.value].position.y)
    ensures GetModuleFromInstance(ws, c.selected.value).None? ==> r == c
  {
    match GetModuleFromInstance(ws, c.selected.value)
    case None => c
    case Some(_) =>
      var pos := ws.instances[c.selected.value].position;
      c.(moveStartPos := Point(pos.x, pos.y), movingModule := true)
  }

  /** `handleMouseDown`: the selection is cleared, then the press starts a
      wire on a hovered port, picks up a hovered instance, or starts
      dragging out a new module over empty space. */
  function MouseDown(c: Controller, ws: VerilogWorkspace, p: Point): (r: Outcome)
    ensures r.ws == ws && r.notice.None?
    ensures r.ctl.mousePos == p && r.ctl.dragStartPos == p
    ensures r.ctl.hoveredInstance == c.hoveredInstance && r.ctl.hoveredPort == c.hoveredPort
    ensures r.ctl.hoveredWire == c.hoveredWire
    ensures c.hoveredInstance.None? ==>
              r.ctl == c.(mousePos := p, dragStartPos := p, selected := None, creatingModule := true)
    ensures c.hoveredInstance.Some? && c.hoveredPort.Some? ==>
              r.ctl.creatingWire && r.ctl.selected.None?
              && r.ctl.movingModule == c.movingModule && r.ctl.creatingModule == c.creatingModule
              && (GetPortPosition(ws, c.hoveredInstance.value, c.hoveredPort.value).Some? ==>
                    r.ctl.wireStartInstance == c.hoveredInstance.value
                    && r.ctl.wireStartPortIndex == c.hoveredPort.value)
    ensures c.hoveredInstance.Some? && c.hoveredPort.None? ==>
              r.ctl.selected == c.hoveredInstance
              && r.ctl.creatingWire == c.creatingWire && r.ctl.creatingModule == c.creatingModule
              && (c.hoveredInstance.value in ws.instances && ws.instances[c.hoveredInstance.value].moduleId in ws.modules ==>
                    r.ctl.movingModule
                    && r.ctl.moveStartPos == Point(ws.instances[c.hoveredInstance.value].position.x,
                                                   ws.instances[c.hoveredInstance.value].position.y))
  {
    var c1 := c.(mousePos := p, dragStartPos := p, selected := None);
    match c.hoveredInstance
    case None => Outcome(c1.(creatingModule := true), ws, None)
    case Some(h) =>
      match c.hoveredPort
      case Some(i) =>
        var c2 := c1.(creatingWire := true);
        if GetPortPosition(ws, h, i).Some? then
          Outcome(c2.(wireStartInstance := h, wireStartPortIndex := i), ws, None)
        else Outcome(c2, ws, None)
      case None => Outcome(HandleModuleInstanceSelected(c1.(selected := Some(h)), ws), ws, None)
  }

  function Min(a: real, b: real): (r: real)
    ensures r <= a && r <= b && (r == a || r == b)
  {
    if a <= b then a else b
  }

  function Abs(v: real): (r: real)
    ensures r >= 0.0 && (r == v || r == -v)
  {
    if v < 0.0 then -v else v
  }

  /** The rectangle dragged out between the press and the release. */
  function DragRect(a: Point, b: Point): (r: Position)
    ensures r.width >= 0.0 && r.height >= 0.0
    ensures (r.x == a.x && r.x + r.width == b.x) || (r.x == b.x && r.x + r.width == a.x)
    ensures (r.y == a.y && r.y + r.height == b.y) || (r.y == b.y && r.y + r.height == a.y)
  {
    Position(Min(a.x, b.x), Min(a.y, b.y), Abs(b.x - a.x), Abs(b.y - a.y))
  }

  /** The dragged rectangle is the smallest one holding both points: each
      of them sits on one of its corners. */
  lemma DragRectSpansGesture(a: Point, b: Point)
    ensures var r := DragRect(a, b);
      r.width >= 0.0 && r.height >= 0.0
      && InBounds(a, Point(r.x, r.y), r.width, r.height)
      && InBounds(b, Point(r.x, r.y), r.width, r.height)
      && (a.x == r.x || a.x == r.x + r.width) && (b.x == r.x || b.x == r.x + r.width)
      && (a.y == r.y || a.y == r.y + r.height) && (b.y == r.y || b.y == r.y + r.height)
  {
  }

  /** A release only creates a module when both sides exceed 50. */
  predicate LargeEnough(rect: Position) {
    rect.height > 50.0 && rect.width > 50.0
  }

  /** The module `handleModuleInstanceAdded` creates: a 16-bit adder. */
  function Adder16(): (m: Module)
    ensures m.name == "adder_16"
    ensures m.ports == [Port("a", 16, true), Port("b", 16, true), Port("cin", 1, true),
                        Port("sum", 16, false), Port("cout", 1, false)]
  {
    NewModule().(name := "adder_16")
      .AddPort("a", 16, true)
      .AddPort("b", 16, true)
      .AddPort("cin", 1, true)
      .AddPort("sum", 16, false)
      .AddPort("cout", 1, false)
  }

  /** `handleModuleInstanceAdded`: a new adder module and, under the next
      id, an instance of it covering the given rectangle. */
  function HandleModuleInstanceAdded(ws: VerilogWorkspace, rect: Position): (r: VerilogWorkspace)
    ensures r.nextObjectId == ws.nextObjectId + 2
    ensures r.modules == ws.modules[ws.nextObjectId := Adder16()]
    ensures r.instances == ws.instances[ws.nextObjectId + 1 :=
              ModuleInstance(ws.nextObjectId, DefaultInstanceName, rect)]
    ensures r.wires == ws.wires
  {
    var added := AddModule(ws, Adder16());
    var inst := NewModuleInstance(added.id);
    AddModuleInstance(added.ws, inst.(position := rect)).ws
  }

  lemma HandleModuleInstanceAddedPreservesWellFormed(ws: VerilogWorkspace, rect: Position)
    requires WellFormed(ws)
    ensures WellFormed(HandleModuleInstanceAdded(ws, rect))
  {
    var added := AddModule(ws, Adder16());
    AddModulePreservesWellFormed(ws, Adder16());
    var inst := NewModuleInstance(added.id).(position := rect);
    AddModuleInstancePreservesWellFormed(added.ws, inst);
  }

  /** How `handleWireConnected` ends. `Fault` is the source's `TypeError`
      when an instance, its module or a port cannot be found. */
  datatype Connection = Connected(ws: VerilogWorkspace) | Incompatible | Fault

  /** Both ends of a would-be wire can be looked up. */
  predicate EndsResolve(ws: VerilogWorkspace, startInstance: int, startPort: int,
                        endInstance: int, endPort: int) {
    GetPortPosition(ws, startInstance, startPort).Some? && GetPortPosition(ws, endInstance, endPort).Some?
  }

  /** `handleWireConnected`: a wire is added exactly when both ends exist
      and their ports are compatible; it takes the start port's width and
      the module ids of the two instances. Nothing stops an instance from
      being wired to itself. */
  function HandleWireConnected(ws: VerilogWorkspace, startInstance: int, startPort: int,
                               endInstance: int, endPort: int): (r: Connection)
    ensures r.Fault? <==> !EndsResolve(ws, startInstance, startPort, endInstance, endPort)
    ensures r.Incompatible? <==>
              EndsResolve(ws, startInstance, startPort, endInstance, endPort)
              && !Compatible(GetModuleFromInstance(ws, startInstance).value.ports[startPort],
                             GetModuleFromInstance(ws, endInstance).value.ports[endPort])
    ensures r.Connected? ==>
              startInstance >= 0 && startPort >= 0 && endInstance >= 0 && endPort >= 0
              && var w := Wire(startInstance, ws.instances[startInstance].moduleId, startPort,
                               endInstance, ws.instances[endInstance].moduleId, endPort,
                               ws.modules[ws.instances[startInstance].moduleId].ports[startPort].size);
                 WireResolves(ws, w)
                 && r.ws.wires == ws.wires[ws.nextObjectId := w]
                 && r.ws.modules == ws.modules && r.ws.instances == ws.instances
                 && r.ws.nextObjectId == ws.nextObjectId + 1
  {
    match (GetModuleFromInstance(ws, startInstance), GetModuleFromInstance(ws, endInstance))
    case (Some(startModule), Some(endModule)) =>
      (match (startModule.GetPort(startPort), endModule.GetPort(endPort))
       case (Some(port1), Some(port2)) =>
         if !Compatible(port1, port2) then Incompatible
         else
           var w := Wire(startInstance, ws.instances[startInstance].moduleId, startPort,
                         endInstance, ws.instances[endInstance].moduleId, endPort, port1.size);
           Connected(AddWire(ws, w).ws)
       case _ => Fault)
    case _ => Fault
  }

  lemma HandleWireConnectedPreservesWellFormed(ws: VerilogWorkspace, startInstance: int, startPort: int,
                                               endInstance: int, endPort: int)
    requires WellFormed(ws)
    ensures var r := HandleWireConnected(ws, startInstance, startPort, endInstance, endPort);
      r.Connected? ==> WellFormed(r.ws)
  {
    if HandleWireConnected(ws, startInstance, startPort, endInstance, endPort).Connected? {
      var w := Wire(startInstance, ws.instances[startInstance].moduleId, startPort,
                    endInstance, ws.instances[endInstance].moduleId, endPort,
                    ws.modules[ws.instances[startInstance].moduleId].ports[startPort].size);
      AddWirePreservesWellFormed(ws, w);
    }
  }

  /** All gesture flags down. */
  function Release(c: Controller): (r: Controller)
    ensures Released(r)
    ensures r == c.(movingModule := false, creatingModule := false, creatingWire := false)
  {
    c.(movingModule := false, creatingModule := false, creatingWire := false)
  }

  /** The workspace after the module-creating half of a release. */
  function CommitModule(c: Controller, ws: VerilogWorkspace, p: Point): (r: VerilogWorkspace)
    ensures !(c.creatingModule && LargeEnough(DragRect(c.dragStartPos, p))) ==> r == ws
    ensures c.creatingModule && LargeEnough(DragRect(c.dragStartPos, p)) ==>
              r.nextObjectId == ws.nextObjectId + 2 && r.wires == ws.wires
              && ws.nextObjectId in r.modules && r.modules[ws.nextObjectId] == Adder16()
              && ws.nextObjectId + 1 in r.instances
              && r.instances[ws.nextObjectId + 1].moduleId == ws.nextObjectId
              && r.instances[ws.nextObjectId + 1].position == DragRect(c.dragStartPos, p)
              && (IdsFresh(ws) ==>
                    (forall k :: k in ws.modules ==> k in r.modules && r.modules[k] == ws.modules[k])
                    && (forall k :: k in ws.instances ==> k in r.instances && r.instances[k] == ws.instances[k]))
  {
    if c.creatingModule && LargeEnough(DragRect(c.dragStartPos, p))
    then HandleModuleInstanceAdded(ws, DragRect(c.dragStartPos, p))
    else ws
  }

  /** The release lands on a port while a wire is being drawn. */
  predicate ConnectsWire(c: Controller) {
    c.creatingWire && c.hoveredInstance.Some? && c.hoveredPort.Some?
  }

  /** `handleMouseUp`: a module drag commits when the rectangle is large
      enough, a wire drag connects when released on a port, and the
      gesture flags go down. Only a failing wire lookup stops the handler
      before the flags are reset. */
  function MouseUp(c: Controller, ws: VerilogWorkspace, p: Point): (r: Outcome)
    ensures r.ctl.mousePos == p && r.ctl.selected == c.selected
    ensures r.ctl.hoveredInstance == c.hoveredInstance && r.ctl.hoveredPort == c.hoveredPort
    ensures r.ctl.hoveredWire == c.hoveredWire
    ensures r.ws.nextObjectId >= ws.nextObjectId
    ensures c.creatingModule && LargeEnough(DragRect(c.dragStartPos, p)) ==>
              ws.nextObjectId in r.ws.modules && r.ws.modules[ws.nextObjectId] == Adder16()
              && ws.nextObjectId + 1 in r.ws.instances
              && r.ws.instances[ws.nextObjectId + 1].position == DragRect(c.dragStartPos, p)
    ensures !(c.creatingModule && LargeEnough(DragRect(c.dragStartPos, p))) && !ConnectsWire(c) ==>
              r.ws == ws && r.ctl == Release(c.(mousePos := p))
    ensures !ConnectsWire(c) ==> Released(r.ctl) && r.notice.None?
    ensures ConnectsWire(c) && EndsResolve(CommitModule(c, ws, p), c.wireStartInstance, c.wireStartPortIndex,
                                           c.hoveredInstance.value, c.hoveredPort.value) ==>
              Released(r.ctl)
    ensures ConnectsWire(c) ==>
              match HandleWireConnected(CommitModule(c, ws, p), c.wireStartInstance, c.wireStartPortIndex,
                                        c.hoveredInstance.value, c.hoveredPort.value)
              case Connected(ws2) => r.ws == ws2 && r.notice.None?
              case Incompatible => r.ws == CommitModule(c, ws, p) && r.notice == Some(IncompatiblePorts)
              case Fault => r.ws == CommitModule(c, ws, p) && r.notice.None?
  {
    var c1 := c.(mousePos := p);
    var ws1 := CommitModule(c, ws, p);
    if ConnectsWire(c) then
      match HandleWireConnected(ws1, c.wireStartInstance, c.wireStartPortIndex,
                                c.hoveredInstance.value, c.hoveredPort.value)
      case Fault => Outcome(c1, ws1, None)
      case Incompatible => Outcome(Release(c1), ws1, Some(IncompatiblePorts))
      case Connected(ws2) => Outcome(Release(c1), ws2, None)
    else Outcome(Release(c1), ws1, None)
  }

  /** Adding modules and instances never unresolves a lookup. */
  lemma CommitModuleKeepsLookups(c: Controller, ws: VerilogWorkspace, p: Point, instance: int, port: int)
    requires IdsFresh(ws)
    requires GetPortPosition(ws, instance, port).Some?
    ensures GetPortPosition(CommitModule(c, ws, p), instance, port).Some?
  {
    var ws1 := CommitModule(c, ws, p);
    assert instance in ws.instances && instance < ws.nextObjectId;
    assert ws.instances[instance].moduleId in ws.modules;
    assert ws1.instances[instance] == ws.instances[instance];
    assert ws1.modules[ws.instances[instance].moduleId] == ws.modules[ws.instances[instance].moduleId];
  }

  /** With consistent hover state, a release always brings every gesture
      flag down. */
  lemma MouseUpReleases(c: Controller, ws: VerilogWorkspace, p: Point)
    requires IdsFresh(ws) && HoverValid(c, ws)
    ensures Released(MouseUp(c, ws, p).ctl)
  {
    if ConnectsWire(c) {
      CommitModuleKeepsLookups(c, ws, p, c.wireStartInstance, c.wireStartPortIndex);
      CommitModuleKeepsLookups(c, ws, p, c.hoveredInstance.value, c.hoveredPort.value);
    }
  }

  lemma MouseUpPreservesWellFormed(c: Controller, ws: VerilogWorkspace, p: Point)
    requires WellFormed(ws)
    ensures WellFormed(MouseUp(c, ws, p).ws)
  {
    var ws1 := CommitModule(c, ws, p);
    if c.creatingModule && LargeEnough(DragRect(c.dragStartPos, p)) {
      HandleModuleInstanceAddedPreservesWellFormed(ws, DragRect(c.dragStartPos, p));
    }
    assert WellFormed(ws1);
    if ConnectsWire(c) {
      HandleWireConnectedPreservesWellFormed(ws1, c.wireStartInstance, c.wireStartPortIndex,
                                             c.hoveredInstance.value, c.hoveredPort.value);
      var conn := HandleWireConnected(ws1, c.wireStartInstance, c.wireStartPortIndex,
                                      c.hoveredInstance.value, c.hoveredPort.value);
      assert MouseUp(c, ws, p).ws == if conn.Connected? then conn.ws else ws1;
    } else {
      assert MouseUp(c, ws, p).ws == ws1;
    }
  }

  /** A blank width field, a number `parseInt` found, or `NaN`. */
  datatype WidthField = Blank | Number(n: int) | NotANumber

  /** A port the port-add form can create: the requested width and
      direction, and a non-empty name with no space at either end. */
  predicate FormPort(port: Port, size: int, input: bool) {
    port.size == size && port.input == input && |port.name| > 0
    && !IsSpace(port.name[0]) && !IsSpace(port.name[|port.name| - 1])
  }

  /** The ports one token adds: none for a blank token, otherwise one named
      after the trimmed token. */
  function TokenPorts(token: string, size: int, input: bool): (ports: seq<Port>)
    ensures |ports| <= 1
    ensures |ports| == 1 <==> !AllSpace(token)
    ensures |ports| == 1 ==> FormPort(ports[0], size, input) && ports[0].name == Trim(token)
  {
    var name := Trim(token);
    TrimEmptyIffAllSpace(token);
    if name == "" then [] else [Port(name, size, input)]
  }

  /** The ports one request adds: one per token that is not blank once
      trimmed, in token order. */
  function NewPorts(names: seq<string>, size: int, input: bool): (ports: seq<Port>)
    ensures |ports| <= |names|
    ensures forall k :: 0 <= k < |ports| ==> FormPort(ports[k], size, input)
  {
    if |names| == 0 then []
    else
      var head := TokenPorts(names[0], size, input);
      var rest := NewPorts(names[1..], size, input);
      head + rest
  }

  /** Tokens that are all non-blank give one port each, named after the
      trimmed token. */
  lemma {:induction false} NewPortsOfNonBlankTokens(names: seq<string>, size: int, input: bool)
    requires forall k :: 0 <= k < |names| ==> !AllSpace(names[k])
    ensures |NewPorts(names, size, input)| == |names|
    ensures forall k :: 0 <= k < |names| ==> NewPorts(names, size, input)[k] == Port(Trim(names[k]), size, input)
  {
    if |names| > 0 {
      TrimEmptyIffAllSpace(names[0]);
      NewPortsOfNonBlankTokens(names[1..], size, input);
    }
  }

  /** Blank tokens add nothing. */
  lemma {:induction false} NewPortsOfBlankTokens(names: seq<string>, size: int, input: bool)
    requires forall k :: 0 <= k < |names| ==> AllSpace(names[k])
    ensures NewPorts(names, size, input) == []
  {
    if |names| > 0 {
      TrimEmptyIffAllSpace(names[0]);
      NewPortsOfBlankTokens(names[1..], size, input);
    }
  }

  /** The ports of two token lists one after the other are the ports of
      each list, in order: with the single-token case `TokenPorts`, this
      gives the ports of any mix of blank and non-blank tokens. */
  lemma {:induction false} NewPortsAppend(a: seq<string>, b: seq<string>, size: int, input: bool)
    ensures NewPorts(a + b, size, input) == NewPorts(a, size, input) + NewPorts(b, size, input)
    decreases |a|
  {
    if |a| == 0 {
      assert a + b == b;
    } else {
      var head := TokenPorts(a[0], size, input);
      NewPortsConsAppend(a, b, size, input);
      NewPortsAppend(a[1..], b, size, input);
      AppendAssociative(head, NewPorts(a[1..], size, input), NewPorts(b, size, input));
    }
  }

  /** The first token of a longer list contributes its ports first. */
  lemma NewPortsConsAppend(a: seq<string>, b: seq<string>, size: int, input: bool)
    requires |a| > 0
    ensures NewPorts(a + b, size, input) == TokenPorts(a[0], size, input) + NewPorts(a[1..] + b, size, input)
  {
    assert (a + b)[0] == a[0];
    assert (a + b)[1..] == a[1..] + b;
  }

  /** A request adds no port exactly when every token is blank. */
  lemma {:induction false} NewPortsEmptyIffBlank(names: seq<string>, size: int, input: bool)
    ensures NewPorts(names, size, input) == [] <==> forall k :: 0 <= k < |names| ==> AllSpace(names[k])
    decreases |names|
  {
    if |names| > 0 {
      assert NewPorts(names, size, input) == TokenPorts(names[0], size, input) + NewPorts(names[1..], size, input);
      NewPortsEmptyIffBlank(names[1..], size, input);
      if forall k :: 0 <= k < |names| ==> AllSpace(names[k]) {
        forall k | 0 <= k < |names| - 1 ensures AllSpace(names[1..][k]) {
          assert names[1..][k] == names[k + 1];
        }
      }
      if forall k :: 0 <= k < |names[1..]| ==> AllSpace(names[1..][k]) {
        forall k | 1 <= k < |names| ensures AllSpace(names[k]) {
          assert names[k] == names[1..][k - 1];
        }
      }
    }
  }

  /** One token gives the ports `TokenPorts` describes. */
  lemma NewPortsOfOneToken(token: string, size: int, input: bool)
    ensures NewPorts([token], size, input) == TokenPorts(token, size, input)
  {
    assert [token][1..] == [];
  }

  /** The loop of `handlePortsAdded`: `addPort` for every token that is not
      blank once trimmed. */
  function AddNamedPorts(m: Module, names: seq<string>, size: int, input: bool): (r: Module)
    ensures r.name == m.name
    ensures |m.ports| <= |r.ports| <= |m.ports| + |names|
    ensures r.ports[..|m.ports|] == m.ports
    decreases |names|
  {
    if |names| == 0 then m
    else
      var name := Trim(names[0]);
      var next := if name == "" then m else m.AddPort(name, size, input);
      var r := AddNamedPorts(next, names[1..], size, input);
      assert r.ports[..|m.ports|] == r.ports[..|next.ports|][..|m.ports|];
      r
  }

  /** One step of the loop, and of the list of new ports. */
  lemma AddNamedPortsStep(m: Module, names: seq<string>, size: int, input: bool)
    requires |names| > 0
    ensures var head := TokenPorts(names[0], size, input);
      AddNamedPorts(m, names, size, input) == AddNamedPorts(m.(ports := m.ports + head), names[1..], size, input)
      && NewPorts(names, size, input) == head + NewPorts(names[1..], size, input)
  {
    var name := Trim(names[0]);
    if name != "" {
      assert m.AddPort(name, size, input) == m.(ports := m.ports + [Port(name, size, input)]);
    } else {
      assert m.(ports := m.ports + []) == m;
    }
  }

  /** The loop appends exactly the new ports, after the existing ones. */
  lemma {:induction false} AddNamedPortsAppends(m: Module, names: seq<string>, size: int, input: bool)
    ensures AddNamedPorts(m, names, size, input) == m.(ports := m.ports + NewPorts(names, size, input))
    decreases |names|
  {
    if |names| > 0 {
      var head := TokenPorts(names[0], size, input);
      var rest := NewPorts(names[1..], size, input);
      var m1 := m.(ports := m.ports + head);
      AddNamedPortsStep(m, names, size, input);
      AddNamedPortsAppends(m1, names[1..], size, input);
      AppendAssociative(m.ports, head, rest);
      assert m1.(ports := m1.ports + rest) == m.(ports := m.ports + (head + rest));
    } else {
      assert m.ports + [] == m.ports;
    }
  }

  /** `handlePortsAdded`. Nothing selected, and a width that is not a
      number, are refused with a notice; a blank width means one bit. No
      check keeps the width positive. The source asks for the instance's
      module before anything else, and fails there when the instance is
      gone; a module that is gone fails at the first `addPort`. */
  function HandlePortsAdded(c: Controller, ws: VerilogWorkspace, names: seq<string>, width: WidthField,
                            input: bool): (r: Outcome)
    ensures r.ctl == c
    ensures r.ws.nextObjectId == ws.nextObjectId && r.ws.instances == ws.instances && r.ws.wires == ws.wires
    ensures r.ws.modules.Keys == ws.modules.Keys
    ensures c.selected.None? ==> r.ws == ws && r.notice == Some(NoModuleSelected)
    ensures c.selected.Some? && width.NotANumber? ==> r.ws == ws
    ensures r.notice == Some(InvalidBitWidth) ==> width.NotANumber?
    ensures c.selected.Some? && c.selected.value in ws.instances && |names| > 0 && width.NotANumber? ==>
              r.notice == Some(InvalidBitWidth)
    ensures r.notice == Some(InvalidPortName) <==> c.selected.Some? && c.selected.value in ws.instances && |names| == 0
    ensures r.ws != ws ==>
              GetModuleFromInstance(ws, c.selected.value).Some? && !width.NotANumber?
              && var id := ws.instances[c.selected.value].moduleId;
                 var size := if width.Blank? then 1 else width.n;
                 r.ws.modules == ws.modules[id := ws.modules[id].(ports := ws.modules[id].ports + NewPorts(names, size, input))]
    ensures c.selected.Some? && GetModuleFromInstance(ws, c.selected.value).Some? && |names| > 0 && !width.NotANumber? ==>
              var id := ws.instances[c.selected.value].moduleId;
              var size := if width.Blank? then 1 else width.n;
              r.notice.None?
              && r.ws.modules == ws.modules[id := ws.modules[id].(ports := ws.modules[id].ports + NewPorts(names, size, input))]
  {
    if c.selected.None? then Outcome(c, ws, Some(NoModuleSelected))
    else
      match GetModuleInstance(ws, c.selected.value)
      case None => Outcome(c, ws, None)
      case Some(inst) =>
        if |names| == 0 then Outcome(c, ws, Some(InvalidPortName))
        else if width.NotANumber? then Outcome(c, ws, Some(InvalidBitWidth))
        else
          var size := if width.Blank? then 1 else width.n;
          match GetModule(ws, inst.moduleId)
          case None => Outcome(c, ws, None)
          case Some(m) =>
            AddNamedPortsAppends(m, names, size, input);
            Outcome(c, ws.(modules := ws.modules[inst.moduleId := AddNamedPorts(m, names, size, input)]), None)
  }

  /** Appending ports to a module keeps every wire resolving: the ports
      they use keep their indices. */
  lemma AppendPortsPreservesWellFormed(ws: VerilogWorkspace, id: nat, extra: seq<Port>)
    requires WellFormed(ws) && id in ws.modules
    ensures WellFormed(ws.(modules := ws.modules[id := ws.modules[id].(ports := ws.modules[id].ports + extra)]))
  {
    var r := ws.(modules := ws.modules[id := ws.modules[id].(ports := ws.modules[id].ports + extra)]);
    forall k | k in r.wires
      ensures WireResolves(r, r.wires[k])
    {
      var w := ws.wires[k];
      assert WireResolves(ws, w);
      assert r.modules[w.startModuleId].ports[w.startPortIndex] == ws.modules[w.startModuleId].ports[w.startPortIndex];
      assert r.modules[w.endModuleId].ports[w.endPortIndex] == ws.modules[w.endModuleId].ports[w.endPortIndex];
    }
  }

  lemma HandlePortsAddedPreservesWellFormed(c: Controller, ws: VerilogWorkspace, names: seq<string>,
                                            width: WidthField, input: bool)
    requires WellFormed(ws)
    ensures WellFormed(HandlePortsAdded(c, ws, names, width, input).ws)
  {
    var r := HandlePortsAdded(c, ws, names, width, input);
    if r.ws != ws {
      var id := ws.instances[c.selected.value].moduleId;
      var size := if width.Blank? then 1 else width.n;
      AppendPortsPreservesWellFormed(ws, id, NewPorts(names, size, input));
    }
  }

  /** `handlePortsCleared`: every wire recording the selected instance's
      module at either end goes, then that module loses all its ports. The
      wires go even when the module itself is gone and the source then
      fails on `clearPorts`. */
  function HandlePortsCleared(c: Controller, ws: VerilogWorkspace): (r: VerilogWorkspace)
    ensures r.nextObjectId == ws.nextObjectId && r.instances == ws.instances
    ensures r.modules.Keys == ws.modules.Keys
    ensures c.selected.None? || c.selected.value !in ws.instances ==> r == ws
    ensures c.selected.Some? && c.selected.value in ws.instances ==>
              var id := ws.instances[c.selected.value].moduleId;
              (forall k :: k in r.wires <==>
                 k in ws.wires && ws.wires[k].startModuleId != id && ws.wires[k].endModuleId != id)
              && (forall k :: k in r.wires ==> r.wires[k] == ws.wires[k])
              && (id in ws.modules ==> r.modules[id] == ws.modules[id].(ports := []))
              && (forall k :: k in ws.modules && k != id ==> r.modules[k] == ws.modules[k])
  {
    if c.selected.None? then ws
    else
      match GetModuleInstance(ws, c.selected.value)
      case None => ws
      case Some(inst) =>
        var ws1 := RemoveWires(ws, inst.moduleId, -1, Index(-1));
        match GetModule(ws1, inst.moduleId)
        case None => ws1
        case Some(m) => ws1.(modules := ws1.modules[inst.moduleId := m.ClearPorts()])
  }

  lemma HandlePortsClearedPreservesWellFormed(c: Controller, ws: VerilogWorkspace)
    requires WellFormed(ws)
    ensures WellFormed(HandlePortsCleared(c, ws))
  {
    var r := HandlePortsCleared(c, ws);
    if c.selected.Some? && c.selected.value in ws.instances {
      forall k | k in r.wires
        ensures WireResolves(r, r.wires[k])
      {
        WireResolvesFrame(ws, r, ws.wires[k]);
      }
    }
  }

  /** `handleModuleInstanceDeleted`: the instance and its wires go, the
      selection is cleared and the hover state recomputed. The trailing
      `removeWires(id, -1)` passes no port index and so runs the port mode
      for instance `-1`, which matches no wire. */
  function HandleModuleInstanceDeleted(c: Controller, ws: VerilogWorkspace, id: nat): (r: Outcome)
    ensures r.ws == RemoveModuleInstance(ws, id)
    ensures r.ctl.selected.None? && r.notice.None?
    ensures r.ctl == UpdateSelection(c.(selected := None), r.ws)
  {
    var ws1 := RemoveModuleInstance(ws, id);
    var c1 := UpdateSelection(c.(selected := None), ws1);
    var ws2 := RemoveWires(ws1, id, -1, Undefined);
    assert ws2.wires == ws1.wires;
    Outcome(c1, ws2, None)
  }

  /** The source's own trailing call, as written, is a no-op as well. */
  lemma DeletedTrailingCallRemovesNothing(ws: VerilogWorkspace, id: nat)
    ensures RemoveWiresAsWritten(RemoveModuleInstance(ws, id), id, -1, Undefined) == RemoveModuleInstance(ws, id)
  {
    PortModeRemovesNothing(RemoveModuleInstance(ws, id), id, -1, Undefined);
  }

  /** The input events the controller reacts to. `DeleteKey` is Delete or
      Backspace pressed outside a text field. */
  datatype Event =
    | MouseMoved(p: Point)
    | MousePressed(p: Point)
    | MouseReleased(p: Point)
    | DeleteKey
    | AddPortsClicked(names: seq<string>, width: WidthField, input: bool)
    | ClearPortsClicked

  /** One event. `handleShortcutKey` deletes the selected instance, and
      ignores the key when nothing is selected. */
  function Step(c: Controller, ws: VerilogWorkspace, e: Event): (r: Outcome)
    ensures r.ws.nextObjectId >= ws.nextObjectId
    ensures e.DeleteKey? && c.selected.Some? ==>
              c.selected.value !in r.ws.instances
              && forall k :: k in r.ws.wires ==>
                   r.ws.wires[k].startInstanceId != c.selected.value && r.ws.wires[k].endInstanceId != c.selected.value
    ensures e.DeleteKey? && c.selected.None? ==> r == Outcome(c, ws, None)
  {
    match e
    case MouseMoved(p) => MouseMove(c, ws, p)
    case MousePressed(p) => MouseDown(c, ws, p)
    case MouseReleased(p) => MouseUp(c, ws, p)
    case DeleteKey =>
      if c.selected.Some? then HandleModuleInstanceDeleted(c, ws, c.selected.value) else Outcome(c, ws, None)
    case AddPortsClicked(names, width, input) => HandlePortsAdded(c, ws, names, width, input)
    case ClearPortsClicked => Outcome(c, HandlePortsCleared(c, ws), None)
  }

  /** Whatever the user does, the workspace stays well formed. */
  lemma StepPreservesWellFormed(c: Controller, ws: VerilogWorkspace, e: Event)
    requires WellFormed(ws)
    ensures WellFormed(Step(c, ws, e).ws)
  {
    match e
    case MouseMoved(p) =>
      ApplyMovePreservesWellFormed(UpdateSelection(c.(mousePos := p), ws), ws);
    case MousePressed(p) =>
    case MouseReleased(p) => MouseUpPreservesWellFormed(c, ws, p);
    case DeleteKey =>
      if c.selected.Some? {
        RemoveModuleInstancePreservesWellFormed(ws, c.selected.value);
      }
    case AddPortsClicked(names, width, input) =>
      HandlePortsAddedPreservesWellFormed(c, ws, names, width, input);
    case ClearPortsClicked => HandlePortsClearedPreservesWellFormed(c, ws);
  }

  /** A whole session of events, from the given state. */
  function Run(c: Controller, ws: VerilogWorkspace, events: seq<Event>): (r: Outcome)
    ensures r.ws.nextObjectId >= ws.nextObjectId
    ensures |events| == 0 ==> r == Outcome(c, ws, None)
    decreases |events|
  {
    if |events| == 0 then Outcome(c, ws, None)
    else
      var o := Step(c, ws, events[0]);
      Run(o.ctl, o.ws, events[1..])
  }

  /** A whole session of events keeps a well-formed workspace well formed,
      so every session from an empty workspace does. */
  lemma {:induction false} RunPreservesWellFormed(c: Controller, ws: VerilogWorkspace, events: seq<Event>)
    requires WellFormed(ws)
    ensures WellFormed(Run(c, ws, events).ws)
    decreases |events|
  {
    if |events| > 0 {
      StepPreservesWellFormed(c, ws, events[0]);
      var o := Step(c, ws, events[0]);
      RunPreservesWellFormed(o.ctl, o.ws, events[1..]);
    }
  }

  /** A session split in two: the second part starts from the controller
      and workspace the first part left behind. */
  lemma {:induction false} RunAppend(c: Controller, ws: VerilogWorkspace, a: seq<Event>, b: seq<Event>)
    ensures var first := Run(c, ws, a);
      Run(c, ws, a + b) == Run(first.ctl, first.ws, b)
    decreases |a|
  {
    if |a| == 0 {
      assert a + b == b;
    } else {
      assert (a + b)[0] == a[0];
      assert (a + b)[1..] == a[1..] + b;
      var o := Step(c, ws, a[0]);
      RunAppend(o.ctl, o.ws, a[1..], b);
    }
  }

  /** Press on an instance away from its ports, then move: the instance
      travels with the cursor, from where it stood. */
  lemma DragMovesInstance(c: Controller, ws: VerilogWorkspace, h: nat, p: Point, q: Point)
    requires WellFormed(ws) && h in ws.instances
    requires c.hoveredInstance == Some(h) && c.hoveredPort.None? && !c.creatingModule
    ensures var down := MouseDown(c, ws, p);
      var move := MouseMove(down.ctl, down.ws, q);
      var before := ws.instances[h].position;
      h in move.ws.instances
      && move.ws.instances[h].position == before.(x := before.x + (q.x - p.x), y := before.y + (q.y - p.y))
  {
    var down := MouseDown(c, ws, p);
    assert down.ctl.movingModule;
    var c1 := UpdateSelection(down.ctl.(mousePos := q), ws);
    assert c1 == down.ctl.(mousePos := q);
  }
}
