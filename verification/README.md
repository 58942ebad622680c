# Visual Verilog editor core, modelled in Dafny

Visual Verilog is a browser editor for drawing Verilog designs. The user drags out
module instances on a canvas, gives their modules ports, and draws wires
between compatible ports. The editor can print each module's Verilog header.
This project models the editor's core and proves properties of that model:

- **Geometry** (`geometry.dfy`, after `public/Utils.js`): squared distances,
  the squared distance from a point to a segment, and the inclusive
  rectangle test. The segment distance is proved to be the minimum over the
  segment.
- **Verilog entities** (`verilog.dfy`, after `public/Verilog.js`): ports and
  their compatibility, modules with ordered port lists (`splice` semantics
  included), instances and wires. It also covers the text of a module
  header (section 12.1 of IEEE 1364), with a reader that recovers each port
  from its declaration.
- **Workspace** (`workspace.dfy`): the registry of modules, instances and
  wires. All three share one id counter, and removals cascade to the
  attached wires. Over any history of edits, ids are never reused. A
  well-formedness invariant is defined: ids are fresh, every instance's module
  exists and every wire's ends resolve. Additions keep it under their preconditions,
  and removing an instance or a wire keeps it. Removing a module that an
  instance still uses breaks it (`Workspace.RemoveModuleCanLeaveDanglingInstance`).
  The editor never does that, so every controller event keeps the
  invariant (`Canvas.RunPreservesWellFormed`).
- **Hit testing** (`hover.dfy`, after the hover functions of
  `public/Canvas.js`): which instance, port zone and wire lie under the
  cursor. These follow the scans' "last hit wins" and "strictly nearer
  wins" rules.
- **Controller** (`canvas.dfy`, after the non-drawing handlers of
  `public/Canvas.js`): mouse down, move and up; the add-ports and
  clear-ports buttons; the delete key. A whole session of events keeps the
  workspace well formed.
- **Sessions** (`scenarios.dfy`): concrete inputs that show particular
  behaviour, including the `removeWires` defect listed under Findings.
- **Helpers**: `text.dfy` models `String.prototype.trim` and left-to-right
  joining, and `decimal.dfy` models decimal rendering of naturals.
  `wrappers.dfy` defines `Option`.

JavaScript's `undefined` from a failed lookup is modelled as `None`. Where
the source would then throw a `TypeError`, the modelled handler stops at
that statement: changes made before it stay, and nothing after it happens.
Numbers are modelled as mathematical reals and integers.

## Model

| member | source | states |
|---|---|---|
| Geometry.Square | public/Utils.js:3-5 | a square is never negative |
| Geometry.SquarePositive | public/Utils.js:3-5 | the square of a non-zero number is positive |
| Geometry.SquareDistance | public/Utils.js:7-9 | a squared distance is never negative |
| Geometry.SquareDistanceZeroIff | public/Utils.js:7-9 | the squared distance is zero exactly when the two points coincide |
| Geometry.SquareDistanceSymmetric | public/Utils.js:7-9 | the squared distance does not depend on the order of the points |
| Geometry.Clamp01 | public/Utils.js:19 | clamping lands in [0, 1], leaves values already there unchanged, sends values below 0 to 0 and values above 1 to 1 |
| Geometry.SquareDistanceToSegment | public/Utils.js:11-27 | the result is non-negative; for a degenerate segment it is the distance to its one point; it is attained at some point of the segment |
| Geometry.SegmentDistanceIsMinimum | public/Utils.js:11-27 | no point of the segment is nearer than the result: it is the true squared distance to the segment |
| Geometry.SegmentDistanceAtMostEndpoints | public/Utils.js:11-27 | the distance to a segment is at most the distance to either end |
| Geometry.SegmentDistanceZeroOnSegment | public/Utils.js:11-27 | every point of the segment has distance zero to it |
| Geometry.InBoundsCorners | public/Utils.js:33-40 | the rectangle test includes all four corners, and a rectangle of negative size holds no point |
| Geometry.InBoundsTranslation | public/Utils.js:33-40 | moving the point and the rectangle by the same offset does not change the answer |
| Geometry.InBounds | public/Utils.js:33-40 | a point is only ever inside a rectangle of non-negative size, and the origin corner is inside exactly then |
| Verilog.CompatibleSymmetric | public/Verilog.js:158-160 | port compatibility does not depend on which end a wire starts from |
| Verilog.CompatibleIrreflexive | public/Verilog.js:158-160 | no port is compatible with itself, and compatible ports have equal widths |
| Verilog.Compatible | public/Verilog.js:158-160 | compatible ports differ, have one input and one output, and share a width |
| Verilog.SpliceStart | public/Verilog.js:10 | the splice start lies in 0..length; an in-range index is kept, a negative one counts back from the end, one before the start gives 0 and one past the end gives the length |
| Verilog.Module.PortCount | public/Verilog.js:21-23 | every index below the count finds a port, and the count itself and -1 find none |
| Verilog.Module.InsertPort | public/Verilog.js:7-11 | the new port lands at the splice start; earlier ports keep their places and later ones move up by one |
| Verilog.Module.AddPort | public/Verilog.js:13-15 | an insertion at the port count appends the port |
| Verilog.Module.GetPort | public/Verilog.js:17-19 | a port is found exactly for an index in range, and it is the port at that index |
| Verilog.Module.RemovePort | public/Verilog.js:25-27 | the port at the splice start goes and later ones move down; past the end nothing changes |
| Verilog.Module.ClearPorts | public/Verilog.js:29-31 | the module keeps its name and has no ports |
| Verilog.NewModule | public/Verilog.js:97-100 | a new module has the default name and no ports |
| Verilog.RemoveInsertedPort | public/Verilog.js:7-27 | removing a port just inserted at an in-range index restores the module |
| Verilog.GetInsertedPort | public/Verilog.js:7-19 | a port just inserted at an in-range index is found there |
| Verilog.PortWidthText | public/Verilog.js:33-41 | the width text is empty exactly for widths of one bit or less |
| Verilog.WidthTextRoundTrip | public/Verilog.js:33-41 | the range text of a multi-bit port reads back as its width |
| Decimal.NatToString | public/Verilog.js:39 | the decimal text is non-empty, all digits, and has no leading zero unless the number is zero |
| Decimal.ParseNatToString | public/Verilog.js:39 | parsing the decimal text gives the number back |
| Decimal.NatToStringInjective | public/Verilog.js:39 | distinct numbers have distinct decimal texts |
| Verilog.PortDeclaration | public/Verilog.js:162-166 | a declaration starts with the direction keyword and ends with the port name |
| Verilog.LastSpace | public/Verilog.js:164 | the position found holds a space and no later one does; none is found only when there is no space |
| Verilog.DeclarationHeadRoundTrip | public/Verilog.js:164 | the part of a declaration before the name reads back as the direction and the declared width |
| Verilog.DeclarationRoundTrip | public/Verilog.js:162-166 | a declaration of a port whose name has no space reads back as that port, with widths below two shown as one bit |
| Verilog.NameListStep | public/Verilog.js:110-120 | each pass of the first loop adds a comma unless it is the first pass, then the indented name |
| Verilog.DeclarationListStep | public/Verilog.js:124-130 | each pass of the second loop adds one declaration line |
| Verilog.WritePortList | public/Verilog.js:108-122 | the first loop yields the port list: the names in port order, comma separated, then the closing line |
| Verilog.ToVerilogHeader | public/Verilog.js:106-134 | the header is the port list followed by one declaration per port, in port order |
| Text.Trim | public/Canvas.js:376 | the result is the part left once white space is cut off at both ends, and it starts and ends with something else |
| Text.TrimmedAtUnique | public/Canvas.js:376 | the cut is determined by the string: any bounds that trim it and keep something select the result |
| Text.TrimEmptyIffAllSpace | public/Canvas.js:376-378 | a token trims to nothing exactly when it is all white space |
| Text.TrimOfTrimmed | public/Canvas.js:376 | a string with no white space at either end trims to itself |
| Text.TrimIdempotent | public/Canvas.js:354-376 | trimming twice is trimming once, as the re-trim of each token relies on |
| Text.JoinSnoc | public/Verilog.js:110-120 | joining one more item adds the separator and then the item |
| Text.ConcatSnoc | public/Verilog.js:124-130 | concatenating one more item appends it |
| Verilog.NewModuleInstance | public/Verilog.js:140-144 | a new instance refers to its module, has the default name, and sits at an all-zero position |
| Workspace.NewWorkspace | public/Verilog.js:192-197 | a new workspace is empty, well formed, and its counter is zero |
| Workspace.AddModule | public/Verilog.js:204-207 | the module is stored under the old counter value, which is returned; the counter advances; ids stay fresh and nothing else changes |
| Workspace.AddModuleInstance | public/Verilog.js:224-227 | the instance is stored under the returned old counter value; ids stay fresh and nothing else changes |
| Workspace.AddWire | public/Verilog.js:244-247 | the wire is stored under the returned old counter value; ids stay fresh and nothing else changes |
| Workspace.GetModule | public/Verilog.js:209-211 | a module is found exactly for a present id, and it is the stored one |
| Workspace.GetModuleInstance | public/Verilog.js:229-231 | an instance is found exactly for a present id, and it is the stored one |
| Workspace.GetWire | public/Verilog.js:249-251 | a wire is found exactly for a present id, and it is the stored one |
| Workspace.GetModuleFromInstance | public/Verilog.js:199-201 | a module is found exactly when the instance exists and its module does, and it is that module |
| Workspace.InstanceModuleResolves | public/Verilog.js:199-201 | in a well-formed workspace every instance's module is found |
| Workspace.RemoveWiresAsWritten | public/Verilog.js:261-295 | as written, the kept wires are exactly those the written test rejects, each unchanged |
| Workspace.Mode | public/Verilog.js:267-285 | port mode whenever a port index other than -1 is passed (an omitted one included), else instance mode when an instance id other than -1 is passed, else module mode |
| Workspace.RemoveWires | public/Verilog.js:261-295 | corrected, the kept wires are exactly those not attached in the chosen mode, each unchanged |
| Workspace.CollectWires | public/Verilog.js:263-289 | the collected ids are exactly the wires the written test accepts |
| Workspace.DeleteWires | public/Verilog.js:291-293 | exactly the listed wires go, and nothing else changes |
| Workspace.RemoveWiresLoop | public/Verilog.js:261-295 | collecting and then deleting gives the as-written removal |
| Workspace.AsWrittenAgreesOutsidePortMode | public/Verilog.js:275-285 | with port index -1, the written and corrected removals agree |
| Workspace.PortModeRemovesNothing | public/Verilog.js:269-273 | as written, the port mode removes no wire at all |
| Workspace.PortModeRemovesAttachedWires | public/Verilog.js:269-273 | corrected, the port mode removes a wire exactly when it is attached to that instance at that port |
| Workspace.RemoveModule | public/Verilog.js:213-216 | the module goes, and so does every wire recording it at either end; other modules, every instance and the other wires stay |
| Workspace.RemoveModuleInstance | public/Verilog.js:233-236 | the instance goes, and so does every wire starting or ending at it; everything else stays |
| Workspace.RemoveWire | public/Verilog.js:253-255 | exactly that wire goes and every other wire keeps its value |
| Workspace.RemoveWiresOnlyDeletes | public/Verilog.js:261-295 | whatever the arguments, wires only disappear and the rest are unchanged |
| Workspace.WireResolvesFrame | public/Verilog.js:176-188 | a wire keeps resolving when its instances, their modules and those modules' ports stay |
| Workspace.AddModulePreservesWellFormed | public/Verilog.js:204-207 | adding a module keeps the workspace well formed |
| Workspace.AddModuleInstancePreservesWellFormed | public/Verilog.js:224-227 | adding an instance of a present module keeps it well formed |
| Workspace.AddWirePreservesWellFormed | public/Verilog.js:244-247 | adding a resolving wire keeps it well formed |
| Workspace.RemoveModuleInstancePreservesWellFormed | public/Verilog.js:233-236 | removing an instance keeps it well formed, thanks to the wire cascade |
| Workspace.RemoveModulePreservesWellFormed | public/Verilog.js:213-216 | removing a module no instance uses keeps it well formed |
| Workspace.RemoveModuleCanLeaveDanglingInstance | public/Verilog.js:213-216 | removing a module that an instance uses leaves that instance dangling |
| Workspace.RemoveWirePreservesWellFormed | public/Verilog.js:253-255 | removing a wire keeps it well formed |
| Workspace.ApplyEditStep | public/Verilog.js:204-255 | one edit keeps ids fresh and never moves the counter back; an addition returns an id no key used |
| Workspace.IdsNeverReused | public/Verilog.js:204-247 | over any history the counter never goes back; the ids returned strictly increase and lie in the range the counter swept |
| Workspace.IdsNeverReusedKeys | public/Verilog.js:204-247 | no id returned over a history was a key of the starting workspace |
| Hover.PortPositionIsZoneCentre | public/Canvas.js:488-499 | a wire attaches at the centre of the port's hit zone that the port scan tests, so inside that zone |
| Hover.PortZone | public/Canvas.js:263-275 | an input's zone sits on the instance's left edge and an output's against its right edge, `yoff` below the top |
| Hover.PortPosition | public/Canvas.js:493-498 | the attachment point sits half a port width inside the port's edge, and half a port height below the top of the port's slot |
| Hover.InModuleBounds | public/Canvas.js:484-486 | a point inside an instance lies right of and below its corner, and the instance has non-negative size |
| Hover.GetPortPosition | public/Canvas.js:488-499 | a position exists exactly when the instance, its module and the port exist; it is the port's attachment point |
| Hover.ScanInstances | public/Canvas.js:236-252 | the scan's result is the last instance holding the cursor, or the starting value when none does |
| Hover.HoveredModuleIsLastHit | public/Canvas.js:236-252 | no instance is hovered exactly when none holds the cursor; otherwise the hovered one is the hit with the largest id |
| Hover.UpdateHoveredModule | public/Canvas.js:236-252 | a hovered instance holds the cursor; nothing is hovered exactly when no instance does |
| Hover.ScanPorts | public/Canvas.js:254-280 | the scan's result is the last port whose zone holds the cursor, or the starting value when none does |
| Hover.UpdateHoveredPort | public/Canvas.js:254-280 | no port is hovered without a hovered instance; a hovered port exists on that instance's module |
| Hover.HoveredPortIsLastHit | public/Canvas.js:254-280 | no port is hovered exactly when no zone holds the cursor; otherwise no later port's zone does |
| Hover.WireDistance | public/Canvas.js:294-299 | a distance exists exactly when the wire is present and both its ends can be placed; it is then the squared distance from the cursor to the segment between the ends |
| Hover.WireDistanceIsNearestPoint | public/Canvas.js:294-299 | a wire's distance is attained at a point of the wire and is no larger than at any other point of it |
| Hover.WellFormedWiresMeasurable | public/Canvas.js:294-299 | in a well-formed workspace every wire can be measured |
| Hover.ScanNearest | public/Canvas.js:282-308 | the kept minimum never grows; when it shrinks, the kept wire attains it and every earlier wire is strictly farther; no wire is nearer |
| Hover.HoveredWireIsNearest | public/Canvas.js:282-308 | no wire is hovered exactly when none is within range; otherwise the hovered wire is in range, no wire is nearer, and every smaller id is strictly farther |
| Hover.UpdateHoveredWire | public/Canvas.js:282-308 | no wire is hovered while a port is; a hovered wire is measurable and within range |
| Canvas.NewController | public/Canvas.js:32-48 | the controller starts with every flag down, nothing hovered or selected, and no wire start |
| Canvas.UpdateSelection | public/Canvas.js:310-331 | only hover state changes; moving an instance freezes it; otherwise the hovered wire is the wire scan's result, and (unless a module is being dragged out, which hovers nothing) the hovered port is the port scan's result and the hovered instance is the instance scan's result when no wire is hovered |
| Canvas.UpdateSelectionValid | public/Canvas.js:310-331 | recomputed hover state names only things that exist |
| Canvas.ApplyMove | public/Canvas.js:740-750 | only the moving instance's corner changes, by exactly the cursor's travel since the press |
| Canvas.ApplyMoveIdempotent | public/Canvas.js:740-750 | running the move step again changes nothing |
| Canvas.ApplyMovePreservesWellFormed | public/Canvas.js:740-750 | moving an instance keeps the workspace well formed |
| Canvas.MouseMove | public/Canvas.js:132-137 | the mouse moves, the hover state is recomputed at the new position, and the moving instance follows; the gesture flags and selection stay, and the workspace changes only when an instance is being moved |
| Canvas.HandleModuleInstanceSelected | public/Canvas.js:405-419 | when the instance's module is found, moving starts from the instance's corner; otherwise nothing changes |
| Canvas.MouseDown | public/Canvas.js:139-178 | the selection clears; a press on a port starts a wire there, on an instance picks it up, on empty space starts a module drag |
| Canvas.DragRectSpansGesture | public/Canvas.js:184-188 | the dragged rectangle has non-negative sides, holds both points, and has each of them on a corner |
| Canvas.DragRect | public/Canvas.js:184-188 | the rectangle has non-negative sides, and on each axis one press point sits at its near edge and the other at its far edge |
| Canvas.Adder16 | public/Canvas.js:459-469 | the created module is "adder_16" with ports a, b, cin in and sum, cout out, at the widths given |
| Canvas.HandleModuleInstanceAdded | public/Canvas.js:459-482 | the adder goes under the counter, an instance of it covering the rectangle under the next id, and wires are untouched |
| Canvas.HandleModuleInstanceAddedPreservesWellFormed | public/Canvas.js:459-482 | adding the adder and its instance keeps the workspace well formed |
| Canvas.HandleWireConnected | public/Canvas.js:421-441 | a failure exactly when an end is missing; a refusal exactly when the ends exist but are incompatible; otherwise a resolving wire with the start port's width is added and nothing else changes |
| Canvas.HandleWireConnectedPreservesWellFormed | public/Canvas.js:421-441 | connecting a wire keeps the workspace well formed |
| Canvas.Release | public/Canvas.js:206-208 | every gesture flag goes down and nothing else changes |
| Canvas.MouseUp | public/Canvas.js:180-210 | a large enough module drag adds the adder over the rectangle; a release on a port connects, refuses with a notice, or fails as the connection handler decides; with no wire to connect nothing else changes and the flags go down |
| Canvas.CommitModule | public/Canvas.js:184-196 | a drag larger than 50 on both sides adds the adder and an instance over the rectangle, leaving wires and existing entries alone; anything else changes nothing |
| Canvas.CommitModuleKeepsLookups | public/Canvas.js:184-196 | adding the module and instance never breaks a port lookup that worked |
| Canvas.MouseUpReleases | public/Canvas.js:180-210 | with consistent hover state a release always brings every flag down |
| Canvas.MouseUpPreservesWellFormed | public/Canvas.js:180-210 | a release keeps the workspace well formed |
| Canvas.TokenPorts | public/Canvas.js:376-380 | a token adds one port exactly when it is not all white space, and at most one; the port is named after the trimmed token, with the requested width and direction |
| Canvas.NewPorts | public/Canvas.js:374-382 | the request adds at most one port per token, each a well-formed form port |
| Canvas.NewPortsOfNonBlankTokens | public/Canvas.js:374-382 | non-blank tokens give one port each, in token order, named after the trimmed token |
| Canvas.NewPortsOfBlankTokens | public/Canvas.js:374-382 | blank tokens add no port |
| Canvas.NewPortsEmptyIffBlank | public/Canvas.js:374-382 | a request adds no port exactly when every token is blank |
| Canvas.NewPortsAppend | public/Canvas.js:374-382 | the ports of two token lists in a row are the ports of each, in order |
| Canvas.NewPortsOfOneToken | public/Canvas.js:374-382 | a single token gives the ports the per-token rule describes |
| Canvas.AddNamedPortsStep | public/Canvas.js:374-382 | one pass of the loop appends the token's ports |
| Canvas.AddNamedPortsAppends | public/Canvas.js:374-382 | the loop appends exactly the new ports after the existing ones |
| Canvas.AddNamedPorts | public/Canvas.js:374-382 | the loop keeps the module's name and its existing ports in front, and adds at most one port per token |
| Canvas.HandlePortsAdded | public/Canvas.js:337-390 | nothing selected is refused with its notice; for an existing selected instance, no tokens get the port-name notice (and only they do), and a width that is not a number gets the bit-width notice (and only it does), changing nothing; otherwise only the selected instance's module changes, by appending the new ports |
| Canvas.AppendPortsPreservesWellFormed | public/Canvas.js:374-382 | appending ports keeps every wire resolving |
| Canvas.HandlePortsAddedPreservesWellFormed | public/Canvas.js:337-390 | adding ports keeps the workspace well formed |
| Canvas.HandlePortsCleared | public/Canvas.js:392-403 | every wire recording the selected instance's module goes, and that module loses all its ports; nothing else changes |
| Canvas.HandlePortsClearedPreservesWellFormed | public/Canvas.js:392-403 | clearing ports keeps the workspace well formed |
| Canvas.HandleModuleInstanceDeleted | public/Canvas.js:445-457 | the instance and its wires go, the selection clears, and hover is recomputed on the new workspace |
| Canvas.DeletedTrailingCallRemovesNothing | public/Canvas.js:455 | the trailing wire removal after a delete removes nothing |
| Canvas.Step | public/Canvas.js:215-232 | the counter never goes back; a delete key with a selection removes that instance and its wires, and without one does nothing |
| Canvas.StepPreservesWellFormed | public/Canvas.js:132-232 | every event keeps the workspace well formed |
| Canvas.RunPreservesWellFormed | public/Canvas.js:132-232 | every session of events keeps the workspace well formed |
| Canvas.Run | public/Canvas.js:77-86 | the id counter never goes back over a session, and an empty session changes nothing |
| Canvas.RunAppend | public/Canvas.js:77-86 | a session split in two runs its second part from the state the first part left |
| Canvas.DragMovesInstance | public/Canvas.js:740-750 | after a press on an instance away from its ports, a move carries it by the cursor's travel |
| Scenarios.PortScopedRemovalKeepsAttachedWire | public/Verilog.js:269-273 | as written, asking for the wires on a port keeps the wire attached there; corrected, it removes it |
| Scenarios.DragCreatesAdder | public/Canvas.js:180-210 | a drag over empty space from (10, 10) to (100, 120) creates the adder and an instance covering that rectangle |
| Scenarios.NarrowDragCreatesNothing | public/Canvas.js:190 | a drag exactly 50 wide creates nothing |
| Scenarios.SelfWireAccepted | public/Canvas.js:421-441 | an output may be wired back to an input of the same instance |
| Scenarios.IncompatiblePortsRefused | public/Canvas.js:432-435 | two inputs, or ports of different widths, are refused |
| Scenarios.ZeroWidthAccepted | public/Canvas.js:364-372 | a width of 0 is accepted |
| Scenarios.BlankTokensAddNothing | public/Canvas.js:374-382 | blank tokens add nothing |
| Scenarios.MixedTokensKeepOrder | public/Canvas.js:374-382 | blank tokens between names are skipped and the names keep their order |
| Scenarios.BadWidthRefused | public/Canvas.js:364-372 | a width that is not a number is refused and nothing changes |
| Scenarios.SmallPortList | public/Verilog.js:108-122 | the port list of an 8-bit input and a 1-bit output |
| Scenarios.SmallDeclarationLines | public/Verilog.js:162-166 | the declarations of an 8-bit input and a 1-bit output |
| Scenarios.SmallDeclarations | public/Verilog.js:124-130 | the declaration lines of that module |
| Scenarios.SmallHeader | public/Verilog.js:106-134 | the whole header of that module |

## Left out

- Drawing: all of `public/CanvasBase.js`, the drawing functions of `public/Canvas.js`, and `textDimensions` in `public/Utils.js`. These produce pixels, not state.
- `distanceToSegment` (`public/Utils.js:29-31`): the square root is not modelled. The wire scan compares squared distances against the squared detection range. Both sides are never negative, so this picks the same wires.
- Floating point: coordinates and distances are reals, so rounding is not modelled.
- Number formatting: widths are integers without limit. JavaScript prints numbers of 10^21 or more in exponent form, which `Decimal.NatToString` does not model.
- Page plumbing: event listeners, mouse coordinate conversion, the `setInterval` render loop, `alert`, and the name and preview text areas (`public/Canvas.js:88-123`). Module and instance renaming through those text areas is left out too. `alert` becomes a `Notice` in the handler's outcome. The render loop's move step (`public/Canvas.js:740-750`) is applied exactly once, right after each mouse move. That timing is an assumption of the model. `Canvas.ApplyMoveIdempotent` shows that further ticks before the next move change nothing. It does not cover a press or release arriving before the first tick. On a workspace that is not well formed, `drawAll` can throw while drawing, before it reaches the move step. `Canvas.ApplyMove` moves the instance regardless.
- The port-add form's text fields: the name field's regular-expression split and `parseInt` of the width field are not modelled. The handler takes the list of tokens and a `WidthField` (blank, a number, or `NaN`). The handler's empty-token-list check is kept, although a split never yields an empty list.
- The `input` radio button is a boolean argument.
- `Concatenator` (`public/Verilog.js:72-93`): nothing in the core uses it.
- `Position`'s setters (`public/Verilog.js:45-70`): modelled as datatype updates.
- The write-only `mouseDown` flag and the drawing-only `wireStartPos` and `wireStartPort` are not modelled. `dragStartPos` and `moveStartPos` start at the origin instead of `null`, since they are only read after a press sets them.
- `handleShortcutKey`'s key and focus test: the `DeleteKey` event stands for Delete or Backspace pressed outside a text field.
- Canvas.UpdateSelection: when the hovered instance's module is gone, the source throws inside the port scan and leaves the wire scan and the module-drag clearing undone. The model carries on with no hovered port. The two differ only for a workspace that is not well formed.
- Hover.UpdateHoveredWire: a wire whose ends cannot be placed is skipped, where the source throws part-way through the scan. `Hover.WellFormedWiresMeasurable` shows every wire can be placed in a well-formed workspace.
- Canvas.MouseUp: the flags go down only when the wire connection does not fail, as in the source, which throws first. `Canvas.MouseUpReleases` shows the failure cannot happen while the hover state is consistent.

## Findings

| source | as written | input that shows it | evidently intended | confidence | as-written member | corrected member |
|---|---|---|---|---|---|---|
| public/Verilog.js:271 | In port mode, `removeWires` compares each wire's port indices with `i`. `i` is the counter of the later deletion loop and is still `undefined` during the scan, so no wire ever matches. | A workspace whose one wire (id 3) runs from port 0 of instance 1, with `removeWires(-1, 1, 0)`: the wire stays | compare the wire's port indices with `portIndex`, removing the wires attached to that instance at that port | not executed | Scenarios.PortScopedRemovalKeepsAttachedWire | Workspace.PortModeRemovesAttachedWires |

The rest of the model uses the corrected `Workspace.RemoveWires`.
`Workspace.AsWrittenAgreesOutsidePortMode` shows the two versions agree on
every call that passes a port index of -1: `removeModule`,
`removeModuleInstance` and `handlePortsCleared`. The only call without a
port index is the trailing one in `handleModuleInstanceDeleted`. It reaches
the port mode with instance -1, and removes nothing under either version
(`Canvas.DeletedTrailingCallRemovesNothing`).
