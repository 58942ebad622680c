/** Hit testing in the editor's canvas (public/Canvas.js:236-308, 484-499):
    which instance, which port zone and which wire lie under the cursor.

    The source walks the workspace's maps in iteration order. A JavaScript
    `Map` iterates in insertion order; every key is inserted once, under the
    then-current counter, so insertion order is ascending id order and the
    scans below walk the ids from 0 up to the counter. */
module Hover {
  import opened Wrappers
  import opened Geometry
  import opened Verilog
  import opened Workspace

  /** The size of a port's square hit zone. */
  const PortWidth: real := 25.0
  const PortHeight: real := 25.0

  /** How close, in pixels, the cursor must come to a wire. Distances are
      compared squared, against `DetectRange * DetectRange`. */
  const DetectRange: real := 10.0

  /** `inModuleBounds`: the instance's rectangle, edges included. */
  function InModuleBounds(p: Point, inst: ModuleInstance): (r: bool)
    ensures r ==> inst.position.width >= 0.0 && inst.position.height >= 0.0
    ensures r ==> inst.position.x <= p.x && inst.position.y <= p.y
  {
    InBounds(p, Point(inst.position.x, inst.position.y), inst.position.width, inst.position.height)
  }

  /** The top-left corner of the hit zone of a port whose zone starts
      `yoff` below the instance's top: inputs on the left edge, outputs
      against the right edge. */
  function PortZone(inst: ModuleInstance, port: Port, yoff: real): (r: Point)
    ensures r.y - inst.position.y == yoff
    ensures port.input ==> r.x == inst.position.x
    ensures !port.input ==> r.x + PortWidth == inst.position.x + inst.position.width
  {
    Point(if port.input then inst.position.x else inst.position.x + inst.position.width - PortWidth,
          inst.position.y + yoff)
  }

  /** `getPortPosition` once the lookups succeeded: where a wire attaches
      to the port with this index. */
  function PortPosition(inst: ModuleInstance, port: Port, index: nat): (r: Point)
    ensures r.y - inst.position.y == (index as real + 0.5) * PortHeight
    ensures port.input ==> r.x - inst.position.x == PortWidth / 2.0
    ensures !port.input ==> inst.position.x + inst.position.width - r.x == PortWidth / 2.0
  {
    Point(if port.input then inst.position.x + PortWidth / 2.0
          else inst.position.x + inst.position.width - PortWidth / 2.0,
          inst.position.y + (index as real) * PortHeight + PortHeight / 2.0)
  }

  /** A wire attaches at the centre of its port's hit zone, so pointing at
      that spot hovers the port. */
  lemma PortPositionIsZoneCentre(inst: ModuleInstance, port: Port, index: nat)
    ensures var zone := PortZone(inst, port, (index as real) * PortHeight);
      PortPosition(inst, port, index) == Point(zone.x + PortWidth / 2.0, zone.y + PortHeight / 2.0)
      && InBounds(PortPosition(inst, port, index), zone, PortWidth, PortHeight)
  {
  }

  /** `getPortPosition`: `None` where the source's lookups hit `undefined`
      (an absent instance or module, or a port index out of range). */
  function GetPortPosition(ws: VerilogWorkspace, instanceId: int, portIndex: int): (r: Option<Point>)
    ensures r.Some? <==> GetModuleFromInstance(ws, instanceId).Some?
                         && GetModuleFromInstance(ws, instanceId).value.GetPort(portIndex).Some?
    ensures r.Some? ==> portIndex >= 0 && r.value == PortPosition(
              ws.instances[instanceId], ws.modules[ws.instances[instanceId].moduleId].ports[portIndex], portIndex)
  {
    match GetModuleFromInstance(ws, instanceId)
    case None => None
    case Some(m) =>
      match m.GetPort(portIndex)
      case None => None
      case Some(port) => Some(PortPosition(ws.instances[instanceId], port, portIndex))
  }

  /** The instance with id `id` exists and its rectangle holds `p`. */
  predicate InstanceHit(ws: VerilogWorkspace, p: Point, id: nat) {
    id in ws.instances && InModuleBounds(p, ws.instances[id])
  }

  /** The loop of `updateHoveredModule` from id `id` on, with `hovered` the
      hit found so far: every later hit overwrites it, so the result is the
      last hit at or after `id`, or `hovered` when there is none. */
  function ScanInstances(ws: VerilogWorkspace, p: Point, id: nat, hovered: Option<nat>): (r: Option<nat>)
    ensures r == hovered || (r.Some? && id <= r.value < ws.nextObjectId && InstanceHit(ws, p, r.value))
    ensures forall k :: id <= k < ws.nextObjectId && InstanceHit(ws, p, k) ==> r.Some? && k <= r.value
    ensures (forall k :: id <= k < ws.nextObjectId ==> !InstanceHit(ws, p, k)) ==> r == hovered
    decreases ws.nextObjectId - id
  {
    if id >= ws.nextObjectId then hovered
    else ScanInstances(ws, p, id + 1, if InstanceHit(ws, p, id) then Some(id) else hovered)
  }

  /** `updateHoveredModule`: an instance under the cursor, or none when
      no id below the counter names one. */
  function UpdateHoveredModule(ws: VerilogWorkspace, p: Point): (r: Option<nat>)
    ensures r.Some? ==> r.value < ws.nextObjectId && InstanceHit(ws, p, r.value)
    ensures r.None? <==> forall k :: 0 <= k < ws.nextObjectId ==> !InstanceHit(ws, p, k)
  {
    ScanInstances(ws, p, 0, None)
  }

  /** With every key below the counter, the hovered instance is the hit
      with the largest id (the last one inserted), and there is none
      exactly when no instance holds the cursor. */
  lemma HoveredModuleIsLastHit(ws: VerilogWorkspace, p: Point)
    requires IdsFresh(ws)
    ensures var r := UpdateHoveredModule(ws, p);
      (r.None? <==> forall k :: k in ws.instances ==> !InModuleBounds(p, ws.instances[k]))
      && (r.Some? ==> InstanceHit(ws, p, r.value)
                      && forall k: nat :: InstanceHit(ws, p, k) ==> k <= r.value)
  {
    var r := UpdateHoveredModule(ws, p);
    if r.None? {
      forall k | k in ws.instances
        ensures !InModuleBounds(p, ws.instances[k])
      {
        assert k < ws.nextObjectId;
        assert !InstanceHit(ws, p, k);
      }
    }
  }

  /** The port with index `i` of `ports`, on `inst`, has its zone under `p`. */
  predicate PortHit(inst: ModuleInstance, ports: seq<Port>, p: Point, i: nat)
    requires i < |ports|
  {
    InBounds(p, PortZone(inst, ports[i], (i as real) * PortHeight), PortWidth, PortHeight)
  }

  /** The loop of `updateHoveredPort` from index `i` on; `yoff` is the
      running offset the source adds `portHeight` to after each port. */
  function ScanPorts(inst: ModuleInstance, ports: seq<Port>, p: Point, i: nat, yoff: real,
                     hovered: Option<nat>): (r: Option<nat>)
    requires i <= |ports| && yoff == (i as real) * PortHeight
    ensures r == hovered || (r.Some? && i <= r.value < |ports| && PortHit(inst, ports, p, r.value))
    ensures forall k :: i <= k < |ports| && PortHit(inst, ports, p, k) ==> r.Some? && k <= r.value
    ensures (forall k :: i <= k < |ports| ==> !PortHit(inst, ports, p, k)) ==> r == hovered
    decreases |ports| - i
  {
    if i == |ports| then hovered
    else
      var hit := InBounds(p, PortZone(inst, ports[i], yoff), PortWidth, PortHeight);
      ScanPorts(inst, ports, p, i + 1, yoff + PortHeight, if hit then Some(i) else hovered)
  }

  /** `updateHoveredPort`: nothing unless an instance is hovered; then the
      last port whose zone holds the cursor. `None` also stands for the
      source's `TypeError` on an instance that is gone. */
  function UpdateHoveredPort(ws: VerilogWorkspace, p: Point, hoveredInstance: Option<nat>): (r: Option<nat>)
    ensures hoveredInstance.None? ==> r.None?
    ensures r.Some? ==> GetModuleFromInstance(ws, hoveredInstance.value).Some?
                        && r.value < GetModuleFromInstance(ws, hoveredInstance.value).value.PortCount()
  {
    match hoveredInstance
    case None => None
    case Some(id) =>
      match GetModuleFromInstance(ws, id)
      case None => None
      case Some(m) => ScanPorts(ws.instances[id], m.ports, p, 0, 0.0, None)
  }

  /** The hovered port is the last one whose zone holds the cursor. */
  lemma HoveredPortIsLastHit(ws: VerilogWorkspace, p: Point, id: nat)
    requires GetModuleFromInstance(ws, id).Some?
    ensures var ports := GetModuleFromInstance(ws, id).value.ports;
      var r := UpdateHoveredPort(ws, p, Some(id));
      (r.None? <==> forall k :: 0 <= k < |ports| ==> !PortHit(ws.instances[id], ports, p, k))
      && (r.Some? ==> r.value < |ports| && PortHit(ws.instances[id], ports, p, r.value)
                      && forall k :: r.value < k < |ports| ==> !PortHit(ws.instances[id], ports, p, k))
  {
  }

  /** The squared distance from `p` to the wire with id `id`: measured to
      the segment between the attachment points of its two ports, and
      only when both of them can be placed. */
  function WireDistance(ws: VerilogWorkspace, p: Point, id: nat): (r: Option<real>)
    ensures r.Some? <==> id in ws.wires
                         && GetPortPosition(ws, ws.wires[id].startInstanceId, ws.wires[id].startPortIndex).Some?
                         && GetPortPosition(ws, ws.wires[id].endInstanceId, ws.wires[id].endPortIndex).Some?
    ensures r.Some? ==> r.value >= 0.0 && r.value == SquareDistanceToSegment(p,
              GetPortPosition(ws, ws.wires[id].startInstanceId, ws.wires[id].startPortIndex).value,
              GetPortPosition(ws, ws.wires[id].endInstanceId, ws.wires[id].endPortIndex).value)
  {
    if id !in ws.wires then None
    else
      var w := ws.wires[id];
      match (GetPortPosition(ws, w.startInstanceId, w.startPortIndex),
             GetPortPosition(ws, w.endInstanceId, w.endPortIndex))
      case (Some(s), Some(e)) => Some(SquareDistanceToSegment(p, s, e))
      case _ => None
  }

  /** A wire's distance is the distance to the nearest point of the wire
      as drawn: no point between its two attachment points is nearer, and
      some point there is exactly that far. */
  lemma WireDistanceIsNearestPoint(ws: VerilogWorkspace, p: Point, id: nat, u: real)
    requires WireDistance(ws, p, id).Some? && 0.0 <= u <= 1.0
    ensures var w := ws.wires[id];
      var s := GetPortPosition(ws, w.startInstanceId, w.startPortIndex).value;
      var e := GetPortPosition(ws, w.endInstanceId, w.endPortIndex).value;
      WireDistance(ws, p, id).value <= SquareDistance(p, Lerp(s, e, u))
      && exists t :: 0.0 <= t <= 1.0 && WireDistance(ws, p, id).value == SquareDistance(p, Lerp(s, e, t))
  {
    var w := ws.wires[id];
    var s := GetPortPosition(ws, w.startInstanceId, w.startPortIndex).value;
    var e := GetPortPosition(ws, w.endInstanceId, w.endPortIndex).value;
    SegmentDistanceIsMinimum(p, s, e, u);
  }

  /** In a well-formed workspace every wire can be measured: both of its
      ends can be placed, so the source's lookups never fail in the loop. */
  lemma WellFormedWiresMeasurable(ws: VerilogWorkspace, p: Point, id: nat)
    requires WellFormed(ws) && id in ws.wires
    ensures WireDistance(ws, p, id).Some?
  {
  }

  /** The state of the wire loop: the wire kept so far and the running
      minimum, squared. */
  datatype WireScan = WireScan(hovered: Option<nat>, minSq: real)

  /** The loop of `updateHoveredWire` from id `i` on, over the wires'
      squared distances by id (`None` where there is no wire to measure).
      A wire replaces the one kept so far only when strictly nearer, so the
      result is the nearest wire under the bound, the first of equally
      near ones. */
  function ScanNearest(d: seq<Option<real>>, i: nat, scan: WireScan): (r: WireScan)
    requires i <= |d|
    ensures r.minSq <= scan.minSq
    ensures r.minSq == scan.minSq ==> r.hovered == scan.hovered
    ensures r.minSq < scan.minSq ==>
              r.hovered.Some? && i <= r.hovered.value < |d| && d[r.hovered.value] == Some(r.minSq)
              && forall k :: i <= k < r.hovered.value && d[k].Some? ==> d[k].value > r.minSq
    ensures forall k :: i <= k < |d| && d[k].Some? ==> r.minSq <= d[k].value
    decreases |d| - i
  {
    if i == |d| then scan
    else
      match d[i]
      case Some(dist) =>
        if dist < scan.minSq then ScanNearest(d, i + 1, WireScan(Some(i), dist))
        else ScanNearest(d, i + 1, scan)
      case None => ScanNearest(d, i + 1, scan)
  }

  /** The squared distance of every id below the counter. */
  function WireDistances(ws: VerilogWorkspace, p: Point): (d: seq<Option<real>>)
    ensures |d| == ws.nextObjectId
    ensures forall k :: 0 <= k < |d| ==> d[k] == WireDistance(ws, p, k)
  {
    seq(ws.nextObjectId, (k: int) requires 0 <= k => WireDistance(ws, p, k))
  }

  /** `updateHoveredWire`: only looked for when no port is hovered, with
      the running minimum starting at the detection range. Comparing
      squares picks the same wires as comparing distances, since both
      sides are never negative. */
  function UpdateHoveredWire(ws: VerilogWorkspace, p: Point, hoveredPort: Option<nat>): (r: Option<nat>)
    ensures hoveredPort.Some? ==> r.None?
    ensures r.Some? ==> WireDistance(ws, p, r.value).Some?
                        && WireDistance(ws, p, r.value).value < DetectRange * DetectRange
  {
    if hoveredPort.Some? then None
    else ScanNearest(WireDistances(ws, p), 0, WireScan(None, DetectRange * DetectRange)).hovered
  }

  /** With every key below the counter: no wire is hovered exactly when no
      placeable wire comes within the detection range; otherwise the
      hovered wire is within range, no wire is nearer, and every wire with
      a smaller id is strictly farther. */
  lemma HoveredWireIsNearest(ws: VerilogWorkspace, p: Point)
    requires IdsFresh(ws)
    ensures var r := UpdateHoveredWire(ws, p, None);
      (r.None? <==> forall k :: k in ws.wires && WireDistance(ws, p, k).Some? ==>
                                  WireDistance(ws, p, k).value >= DetectRange * DetectRange)
      && (r.Some? ==>
            WireDistance(ws, p, r.value).Some?
            && WireDistance(ws, p, r.value).value < DetectRange * DetectRange
            && (forall k :: k in ws.wires && WireDistance(ws, p, k).Some? ==>
                              WireDistance(ws, p, r.value).value <= WireDistance(ws, p, k).value)
            && (forall k: nat :: k < r.value && WireDistance(ws, p, k).Some? ==>
                              WireDistance(ws, p, r.value).value < WireDistance(ws, p, k).value))
  {
    var d := WireDistances(ws, p);
    var scan := ScanNearest(d, 0, WireScan(None, DetectRange * DetectRange));
    forall k | k in ws.wires && WireDistance(ws, p, k).Some?
      ensures scan.minSq <= WireDistance(ws, p, k).value
    {
      assert k < ws.nextObjectId;
      assert d[k] == WireDistance(ws, p, k);
    }
  }
}
