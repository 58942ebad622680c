/** Concrete sessions with the editor, showing the source's behaviour on
    particular inputs, the quirks included. */
module Scenarios {
  import opened Wrappers
  import opened Geometry
  import opened Verilog
  import opened Workspace
  import opened Hover
  import opened Canvas
  import opened Text

  /** One wire, from port 0 of instance 1 to port 0 of instance 2. */
  function OneWire(): VerilogWorkspace {
    VerilogWorkspace(4, map[], map[], map[3 := Wire(1, 0, 0, 2, 0, 0, 1)])
  }

  /** As written, asking `removeWires` for the wires on port 0 of
      instance 1 keeps the wire that is attached there. */
  lemma PortScopedRemovalKeepsAttachedWire()
    ensures 3 in RemoveWiresAsWritten(OneWire(), -1, 1, Index(0)).wires
    ensures 3 !in RemoveWires(OneWire(), -1, 1, Index(0)).wires
  {
    assert Matches(OneWire().wires[3], -1, 1, Index(0));
  }

  /** An adder module (id 0) and one instance of it (id 1). */
  function Sample(): VerilogWorkspace {
    VerilogWorkspace(2, map[0 := Adder16()],
                     map[1 := ModuleInstance(0, DefaultInstanceName, Position(10.0, 10.0, 90.0, 110.0))],
                     map[])
  }

  /** An empty editor after a drag from (10, 10) to (100, 120). */
  function Dragged(): Outcome {
    var down := MouseDown(NewController(), NewWorkspace(), Point(10.0, 10.0));
    MouseUp(down.ctl, down.ws, Point(100.0, 120.0))
  }

  /** Dragging over empty space creates the adder module under id 0 and
      its instance under id 1, covering the dragged rectangle. */
  lemma DragCreatesAdder()
    ensures Dragged().ws == Sample() && Released(Dragged().ctl)
  {
    var down := MouseDown(NewController(), NewWorkspace(), Point(10.0, 10.0));
    assert down.ctl.creatingModule && down.ctl.dragStartPos == Point(10.0, 10.0);
    assert DragRect(Point(10.0, 10.0), Point(100.0, 120.0)) == Position(10.0, 10.0, 90.0, 110.0);
  }

  /** A drag exactly 50 wide creates nothing: both sides must exceed 50. */
  lemma NarrowDragCreatesNothing()
    ensures var down := MouseDown(NewController(), NewWorkspace(), Point(10.0, 10.0));
      MouseUp(down.ctl, down.ws, Point(60.0, 200.0)).ws == NewWorkspace()
  {
    assert !LargeEnough(DragRect(Point(10.0, 10.0), Point(60.0, 200.0)));
  }

  /** Nothing stops a wire from an instance's output back to one of its own
      inputs: `sum` (port 3) to `a` (port 0) of the same adder. */
  lemma SelfWireAccepted()
    ensures HandleWireConnected(Sample(), 1, 3, 1, 0).Connected?
  {
    var ws := Sample();
    assert ws.instances[1].moduleId == 0 && ws.modules[0] == Adder16();
    assert Compatible(Adder16().ports[3], Adder16().ports[0]);
  }

  /** Two inputs are refused, and so are an output and an input of
      different widths. */
  lemma IncompatiblePortsRefused()
    ensures HandleWireConnected(Sample(), 1, 0, 1, 1).Incompatible?
    ensures HandleWireConnected(Sample(), 1, 4, 1, 0).Incompatible?
  {
    var ws := Sample();
    assert ws.instances[1].moduleId == 0 && ws.modules[0] == Adder16();
  }

  /** A width of 0 is accepted: only `NaN` is refused. */
  lemma ZeroWidthAccepted()
    ensures var c := NewController().(selected := Some(1));
      var r := HandlePortsAdded(c, Sample(), ["en"], Number(0), true);
      r.notice.None? && r.ws.modules[0].ports == Adder16().ports + [Port("en", 0, true)]
  {
    var ws := Sample();
    assert ws.instances[1].moduleId == 0 && ws.modules[0] == Adder16();
    Text.TrimOfTrimmed("en");
    NewPortsOfNonBlankTokens(["en"], 0, true);
  }

  /** Blank tokens add nothing. */
  lemma BlankTokensAddNothing()
    ensures var c := NewController().(selected := Some(1));
      HandlePortsAdded(c, Sample(), [" ", ""], Blank, true).ws == Sample()
  {
    var ws := Sample();
    assert ws.instances[1].moduleId == 0;
    assert AllSpace(" ") by { assert IsSpace(" "[0]); }
    NewPortsOfBlankTokens([" ", ""], 1, true);
    assert ws.modules[0].(ports := ws.modules[0].ports + []) == ws.modules[0];
    assert ws.modules[0 := ws.modules[0]] == ws.modules;
  }

  /** Blank tokens between names are skipped and the names keep their
      order. */
  lemma MixedTokensKeepOrder()
    ensures NewPorts(["a", "", "b"], 1, true) == [Port("a", 1, true), Port("b", 1, true)]
  {
    Text.TrimOfTrimmed("a");
    Text.TrimOfTrimmed("b");
    var a := TokenPorts("a", 1, true);
    var blank := TokenPorts("", 1, true);
    var b := TokenPorts("b", 1, true);
    assert a == [Port("a", 1, true)] && blank == [] && b == [Port("b", 1, true)];
    NewPortsOfOneToken("a", 1, true);
    NewPortsOfOneToken("", 1, true);
    NewPortsOfOneToken("b", 1, true);
    assert ["a", "", "b"] == ["a"] + ["", "b"];
    assert ["", "b"] == [""] + ["b"];
    NewPortsAppend([""], ["b"], 1, true);
    assert NewPorts(["", "b"], 1, true) == b;
    NewPortsAppend(["a"], ["", "b"], 1, true);
    assert NewPorts(["a", "", "b"], 1, true) == a + b;
  }

  /** A width that is not a number is refused before any token is looked
      at. */
  lemma BadWidthRefused()
    ensures var c := NewController().(selected := Some(1));
      var r := HandlePortsAdded(c, Sample(), ["x"], NotANumber, true);
      r.notice == Some(InvalidBitWidth) && r.ws == Sample()
  {
    assert Sample().instances[1].moduleId == 0;
  }

  /** A module with an 8-bit input and a 1-bit output. */
  function SmallModule(): Module {
    Module("m", [Port("a", 8, true), Port("y", 1, false)])
  }

  lemma SmallPortList()
    ensures PortListText(SmallModule()) == "module m (\n    a,\n    y\n);\n"
  {
    var names := PortNameItems(SmallModule().ports);
    assert names[0] == "\n    a" && names[1] == "\n    y";
    assert names == ["\n    a", "\n    y"];
    assert Join(names, ",") == "\n    a,\n    y";
  }

  lemma SmallDeclarationLines()
    ensures PortDeclaration(Port("a", 8, true)) == "input [7:0] a"
    ensures PortDeclaration(Port("y", 1, false)) == "output y"
  {
    assert Decimal.NatToString(7) == "7";
    assert PortWidthText(8) == "[7:0]";
  }

  lemma SmallDeclarations()
    ensures Concat(DeclarationItems(SmallModule().ports)) == "\ninput [7:0] a;\noutput y;"
  {
    var ports := SmallModule().ports;
    SmallDeclarationLines();
    var decls := DeclarationItems(ports);
    assert decls[0] == "\ninput [7:0] a;" && decls[1] == "\noutput y;";
    assert decls == ["\ninput [7:0] a;", "\noutput y;"];
    assert decls[1..] == ["\noutput y;"];
    assert Concat(decls[1..]) == "\noutput y;" + Concat([]);
  }

  /** The header of that module: the port list, then one declaration per
      port, the 8-bit one with its range. */
  lemma SmallHeader()
    ensures HeaderText(SmallModule()) == "module m (\n    a,\n    y\n);\n\ninput [7:0] a;\noutput y;"
  {
    SmallPortList();
    SmallDeclarations();
  }
}
