/** The editor's Verilog entities (public/Verilog.js): ports, modules with
    their ordered port lists, module instances placed on the canvas, and
    wires between instance ports, together with the text of a Verilog
    module header (IEEE 1364, section 12.1) that a module renders. */
module Verilog {
  import opened Wrappers
  import opened Text
  import opened Decimal

  /** A port: its name, its bit width and its direction. Widths come from
      `parseInt`, so any integer may occur, zero and negatives included. */
  datatype Port = Port(name: string, size: int, input: bool)

  /** Two ports may be wired together when they carry the same width and
      point in opposite directions. */
  function Compatible(a: Port, b: Port): (r: bool)
    ensures r ==> a != b && a.size == b.size && (a.input <==> !b.input)
  {
    a.size == b.size && a.input != b.input
  }

  /** Compatibility does not depend on which end the wire starts from. */
  lemma CompatibleSymmetric(a: Port, b: Port)
    ensures Compatible(a, b) <==> Compatible(b, a)
  {
  }

  /** No port is compatible with itself, and compatible ports always have
      the same width (the width a wire between them takes). */
  lemma CompatibleIrreflexive(a: Port, b: Port)
    ensures !Compatible(a, a)
    ensures Compatible(a, b) ==> a != b && a.size == b.size
  {
  }

  /** Where `Array.prototype.splice` starts for a `start` argument on an
      array of length `len`: negative values count back from the end and
      anything out of range is clamped into `0..len`. */
  function SpliceStart(start: int, len: nat): (k: nat)
    ensures k <= len
    ensures 0 <= start <= len ==> k == start
    ensures start < 0 && len + start >= 0 ==> k == len + start
    ensures len + start < 0 ==> k == 0
    ensures start > len ==> k == len
  {
    if start < 0 then (if len + start < 0 then 0 else len + start)
    else if start > len then len
    else start
  }

  /** A module: a name and the ordered list of its ports (the source's
      `PortHolder` base class together with `Module`). */
  datatype Module = Module(name: string, ports: seq<Port>) {

    function PortCount(): (n: nat)
      ensures forall i :: 0 <= i < n ==> GetPort(i).Some?
      ensures GetPort(n).None? && GetPort(-1).None?
    {
      |ports|
    }

    /** `insertPort`: the new port lands where `splice` starts, the ports
        before it keep their places and the later ones move up by one. */
    function InsertPort(portName: string, size: int, input: bool, index: int): (m: Module)
      ensures m.name == name
      ensures |m.ports| == |ports| + 1
      ensures var k := SpliceStart(index, |ports|);
        m.ports[k] == Port(portName, size, input)
        && (forall j :: 0 <= j < k ==> m.ports[j] == ports[j])
        && (forall j :: k <= j < |ports| ==> m.ports[j + 1] == ports[j])
    {
      var k := SpliceStart(index, |ports|);
      this.(ports := ports[..k] + [Port(portName, size, input)] + ports[k..])
    }

    /** `addPort`: an insertion at the current port count, which appends. */
    function AddPort(portName: string, size: int, input: bool): (m: Module)
      ensures m.name == name
      ensures m.ports == ports + [Port(portName, size, input)]
    {
      var m := InsertPort(portName, size, input, PortCount());
      assert m.ports == ports + [Port(portName, size, input)];
      m
    }

    /** `getPort`: the port at `index`, or nothing (`undefined`) when the
        index is out of range. */
    function GetPort(index: int): (r: Option<Port>)
      ensures r.Some? <==> 0 <= index < |ports|
      ensures r.Some? ==> r.value == ports[index]
    {
      if 0 <= index < |ports| then Some(ports[index]) else None
    }

    /** `removePort`: the port where `splice` starts is dropped and the
        later ones move down by one; when that start is past the end
        nothing changes. */
    function RemovePort(index: int): (m: Module)
      ensures m.name == name
      ensures var k := SpliceStart(index, |ports|);
        if k < |ports| then
          |m.ports| == |ports| - 1
          && (forall j :: 0 <= j < k ==> m.ports[j] == ports[j])
          && (forall j :: k <= j < |m.ports| ==> m.ports[j] == ports[j + 1])
        else m == this
    {
      var k := SpliceStart(index, |ports|);
      if k < |ports| then this.(ports := ports[..k] + ports[k + 1..]) else this
    }

    /** `clearPorts`. */
    function ClearPorts(): (m: Module)
      ensures m.name == name && m.PortCount() == 0
    {
      this.(ports := [])
    }
  }

  /** The name a freshly constructed `Module` carries. */
  const DefaultModuleName: string := "module_name"

  function NewModule(): (m: Module)
    ensures m.name == DefaultModuleName && m.PortCount() == 0
  {
    Module(DefaultModuleName, [])
  }

  /** Removing the port just inserted at an in-range index restores the
      module. */
  lemma {:induction false} RemoveInsertedPort(m: Module, portName: string, size: int, input: bool, index: int)
    requires 0 <= index <= m.PortCount()
    ensures m.InsertPort(portName, size, input, index).RemovePort(index) == m
  {
    var m' := m.InsertPort(portName, size, input, index);
    var r := m'.RemovePort(index);
    assert SpliceStart(index, |m'.ports|) == index;
    assert r.ports == m.ports;
  }

  /** The port just inserted at an in-range index is found there. */
  lemma {:induction false} GetInsertedPort(m: Module, portName: string, size: int, input: bool, index: int)
    requires 0 <= index <= m.PortCount()
    ensures m.InsertPort(portName, size, input, index).GetPort(index) == Some(Port(portName, size, input))
  {
    assert SpliceStart(index, |m.ports|) == index;
  }

  /** `getPortWidthText`: empty for one bit (or less), otherwise the
      bracketed range from the most significant bit down to bit 0. */
  function PortWidthText(size: int): (s: string)
    ensures size <= 1 <==> s == ""
  {
    if size <= 1 then "" else "[" + NatToString(size - 1) + ":0]"
  }

  /** Reads a range `[h:0]` back as the width `h + 1`. */
  function ParseWidthText(t: string): Option<int>
  {
    if 5 <= |t| && t[0] == '[' && t[|t| - 3..] == ":0]" && AllDigits(t[1..|t| - 3])
    then Some(ParseDecimal(t[1..|t| - 3]) + 1)
    else None
  }

  /** The width text of a multi-bit port determines the width. */
  lemma WidthTextRoundTrip(size: int)
    requires size > 1
    ensures ParseWidthText(PortWidthText(size)) == Some(size)
  {
    var digits := NatToString(size - 1);
    var t := PortWidthText(size);
    assert t[1..|t| - 3] == digits;
    assert t[|t| - 3..] == ":0]";
    ParseNatToString(size - 1);
  }

  function DirectionText(input: bool): string {
    if input then "input" else "output"
  }

  /** `getPortDeclaration`: the direction keyword, then the range when the
      port is wider than one bit, then the port name. */
  function PortDeclaration(p: Port): (s: string)
    ensures var dir := DirectionText(p.input);
      |s| > |dir| + |p.name| && s[..|dir|] == dir && s[|s| - |p.name|..] == p.name
  {
    var width := if p.size > 1 then " " + PortWidthText(p.size) else "";
    DirectionText(p.input) + width + " " + p.name
  }

  /** The position of the last space in `s`, if it has one. */
  function LastSpace(s: string): (r: Option<nat>)
    ensures r.Some? ==> r.value < |s| && s[r.value] == ' '
                        && forall k :: r.value < k < |s| ==> s[k] != ' '
    ensures r.None? ==> forall k :: 0 <= k < |s| ==> s[k] != ' '
  {
    if |s| == 0 then None
    else if s[|s| - 1] == ' ' then Some(|s| - 1)
    else LastSpace(s[..|s| - 1])
  }

  /** Reads the part of a declaration before the name: a direction,
      optionally followed by a space and a range. */
  function ParseDeclarationHead(head: string, name: string): Option<Port>
  {
    if head == "input" then Some(Port(name, 1, true))
    else if head == "output" then Some(Port(name, 1, false))
    else if 6 <= |head| && head[..6] == "input " then
      match ParseWidthText(head[6..])
      case Some(w) => Some(Port(name, w, true))
      case None => None
    else if 7 <= |head| && head[..7] == "output " then
      match ParseWidthText(head[7..])
      case Some(w) => Some(Port(name, w, false))
      case None => None
    else None
  }

  /** Reads a port declaration back: the name follows the last space. */
  function ParseDeclaration(s: string): Option<Port>
  {
    match LastSpace(s)
    case None => None
    case Some(j) => ParseDeclarationHead(s[..j], s[j + 1..])
  }

  /** The width a declaration shows: widths of one bit or less all read
      back as one bit. */
  function DeclaredWidth(size: int): int {
    if size > 1 then size else 1
  }

  predicate NoSpace(s: string) {
    forall k :: 0 <= k < |s| ==> s[k] != ' '
  }

  /** In `head + " " + tail` with no space in `tail`, the last space is the
      one between them. */
  lemma {:induction false} LastSpaceBeforeTail(head: string, tail: string)
    requires NoSpace(tail)
    ensures LastSpace(head + " " + tail) == Some(|head|)
    decreases |tail|
  {
    var s := head + " " + tail;
    if |tail| > 0 {
      var shorter := tail[..|tail| - 1];
      assert s[|s| - 1] == tail[|tail| - 1];
      assert s[..|s| - 1] == head + " " + shorter;
      LastSpaceBeforeTail(head, shorter);
    }
  }

  /** A direction, a space and a range: the range is read on its own. */
  lemma DirectionWithRange(input: bool, t: string, name: string)
    requires |t| > 0 && t[0] == '['
    ensures var head := DirectionText(input) + (" " + t);
      ParseWidthText(t).Some? ==>
        ParseDeclarationHead(head, name) == Some(Port(name, ParseWidthText(t).value, input))
  {
    var head := DirectionText(input) + (" " + t);
    var k := |DirectionText(input)| + 1;
    assert head[k] == '[';
    assert head[..k] == DirectionText(input) + " ";
    assert head[k..] == t;
    if input {
      assert head != "input" && head != "output" by { assert |head| > 6; }
    } else {
      assert head != "input" && head != "output" by { assert |head| > 7; }
      assert head[..6] != "input " by { assert head[0] == 'o'; }
    }
  }

  /** A direction followed by a range reads back as a port of that
      direction and width. */
  lemma RangeRoundTrip(name: string, size: int, input: bool)
    requires size > 1
    ensures ParseDeclarationHead(DirectionText(input) + (" " + PortWidthText(size)), name)
            == Some(Port(name, size, input))
  {
    WidthTextRoundTrip(size);
    DirectionWithRange(input, PortWidthText(size), name);
  }

  /** The part of a declaration before the name reads back as the
      direction and width. */
  lemma DeclarationHeadRoundTrip(name: string, size: int, input: bool)
    ensures var width := if size > 1 then " " + PortWidthText(size) else "";
      ParseDeclarationHead(DirectionText(input) + width, name)
      == Some(Port(name, DeclaredWidth(size), input))
  {
    if size > 1 {
      RangeRoundTrip(name, size, input);
    } else {
      assert DirectionText(input) + "" == DirectionText(input);
    }
  }

  /** A declaration determines the port's direction and name, and its width
      whenever that is more than one bit (a name with a space in it would
      make the split ambiguous). */
  lemma DeclarationRoundTrip(p: Port)
    requires NoSpace(p.name)
    ensures ParseDeclaration(PortDeclaration(p)) == Some(p.(size := DeclaredWidth(p.size)))
  {
    var width := if p.size > 1 then " " + PortWidthText(p.size) else "";
    var head := DirectionText(p.input) + width;
    var s := PortDeclaration(p);
    assert s == head + " " + p.name;
    LastSpaceBeforeTail(head, p.name);
    assert s[..|head|] == head;
    assert s[|head| + 1..] == p.name;
    DeclarationHeadRoundTrip(p.name, p.size, p.input);
  }

  /** The lines `toVerilogHeader` lists the port names on, in port order. */
  function PortNameItems(ports: seq<Port>): (items: seq<string>)
    ensures |items| == |ports|
  {
    seq(|ports|, i requires 0 <= i < |ports| => "\n    " + ports[i].name)
  }

  /** The declaration lines of the header body, in port order. */
  function DeclarationItems(ports: seq<Port>): (items: seq<string>)
    ensures |items| == |ports|
  {
    seq(|ports|, i requires 0 <= i < |ports| => "\n" + PortDeclaration(ports[i]) + ";")
  }

  /** The header a module renders: `module <name> (`, the port names one per
      indented line and separated by commas, `);`, then one declaration per
      port, all in port order. */
  function HeaderText(m: Module): string {
    PortListText(m) + Concat(DeclarationItems(m.ports))
  }

  /** The first part of the header, up to the closing `);`. */
  function PortListText(m: Module): string {
    "module " + m.name + " (" + Join(PortNameItems(m.ports), ",") + "\n);\n"
  }

  /** One more port name on the list: a comma unless it is the first, then
      the indented name. */
  lemma {:induction false} NameListStep(ports: seq<Port>, i: nat)
    requires i < |ports|
    ensures Join(PortNameItems(ports[..i + 1]), ",")
            == Join(PortNameItems(ports[..i]), ",") + (if i > 0 then "," else "") + "\n    " + ports[i].name
  {
    var item := "\n    " + ports[i].name;
    assert PortNameItems(ports[..i + 1]) == PortNameItems(ports[..i]) + [item];
    if i > 0 {
      JoinSnoc(PortNameItems(ports[..i]), ",", item);
    } else {
      assert PortNameItems(ports[..i + 1]) == [item];
    }
  }

  lemma AppendAssociative<T>(a: seq<T>, b: seq<T>, c: seq<T>)
    ensures (a + b) + c == a + (b + c)
  {
  }

  /** One more declaration line at the end of the header. */
  lemma {:induction false} DeclarationListStep(ports: seq<Port>, i: nat)
    requires i < |ports|
    ensures Concat(DeclarationItems(ports[..i + 1]))
            == Concat(DeclarationItems(ports[..i])) + ("\n" + PortDeclaration(ports[i]) + ";")
  {
    var item := "\n" + PortDeclaration(ports[i]) + ";";
    assert DeclarationItems(ports[..i + 1]) == DeclarationItems(ports[..i]) + [item];
    ConcatSnoc(DeclarationItems(ports[..i]), item);
  }

  /** The first loop of `toVerilogHeader`: the port names, comma
      separated, then the closing `);`. */
  method WritePortList(m: Module) returns (code: string)
    ensures code == PortListText(m)
  {
    var opening := "module " + m.name + " (";
    code := opening;
    var i := 0;
    while i < m.PortCount()
      invariant 0 <= i <= m.PortCount()
      invariant code == opening + Join(PortNameItems(m.ports[..i]), ",")
    {
      NameListStep(m.ports, i);
      if i > 0 {
        code := code + ",";
      }
      code := code + "\n    " + m.ports[i].name;
      i := i + 1;
    }
    assert m.ports[..i] == m.ports;
    code := code + "\n);\n";
  }

  /** `toVerilogHeader`: the port list, then a second loop appending one
      declaration per port. */
  method ToVerilogHeader(m: Module) returns (code: string)
    ensures code == HeaderText(m)
  {
    code := WritePortList(m);
    assert DeclarationItems(m.ports[..0]) == [];
    var i := 0;
    while i < m.PortCount()
      invariant 0 <= i <= m.PortCount()
      invariant code == PortListText(m) + Concat(DeclarationItems(m.ports[..i]))
    {
      var line := "\n" + PortDeclaration(m.ports[i]) + ";";
      DeclarationListStep(m.ports, i);
      AppendAssociative(PortListText(m), Concat(DeclarationItems(m.ports[..i])), line);
      code := code + line;
      i := i + 1;
    }
    assert m.ports[..i] == m.ports;
  }

  /** Where an instance is drawn: its top-left corner and its size. */
  datatype Position = Position(x: real, y: real, width: real, height: real)

  /** A placed copy of a module, referring to it by id. */
  datatype ModuleInstance = ModuleInstance(moduleId: nat, name: string, position: Position)

  const DefaultInstanceName: string := "iMODULE_INSTANCE"

  /** A freshly constructed instance: the default name and an all-zero
      position. */
  function NewModuleInstance(moduleId: nat): (inst: ModuleInstance)
    ensures inst.moduleId == moduleId && inst.name == DefaultInstanceName
    ensures inst.position == Position(0.0, 0.0, 0.0, 0.0)
  {
    ModuleInstance(moduleId, DefaultInstanceName, Position(0.0, 0.0, 0.0, 0.0))
  }

  /** A wire from one instance port to another. It records the instances'
      module ids beside the instance ids, and its own width. */
  datatype Wire = Wire(startInstanceId: nat, startModuleId: nat, startPortIndex: nat,
                       endInstanceId: nat, endModuleId: nat, endPortIndex: nat,
                       size: int)
}
