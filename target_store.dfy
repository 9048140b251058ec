/**
 * The target store of the port knocker: the `Port` and `Target` records, the
 * parser of one line of the saved-targets file, the renderer of a target back
 * to such a line, and the loader that parses every line of the file.
 *
 * A line has the form `host:number/protocol,number/protocol,...`. Parsing
 * first removes all whitespace; blank and `#` lines are skipped silently; a
 * line that does not split into exactly two parts on `:` is rejected with a
 * diagnostic; inside the port list each malformed or out-of-range item is
 * dropped with a diagnostic of its own while the rest of the line is kept.
 */
module TargetStore {
  import opened Wrappers
  import opened Text

  /** One port to knock on; the protocol is the text "tcp" or "udp". */
  datatype Port = Port(number: int, protocol: string)

  /** A host and the ports to knock on, in knock order. */
  datatype Target = Target(host: string, ports: seq<Port>)

  /**
   * What the parser reports on the terminal. Both kinds quote the line after
   * whitespace removal; an invalid port also quotes its number token.
   */
  datatype Diagnostic =
    | InvalidPort(token: string, line: string)
    | UnparsableLine(line: string)

  /** The outcome of parsing one line: a target or nothing, and the diagnostics printed. */
  datatype Parsed = Parsed(target: Option<Target>, diagnostics: seq<Diagnostic>)

  /** The outcome of parsing one comma-separated port item. */
  datatype ItemResult = Accepted(port: Port) | Rejected(diagnostic: Diagnostic)

  /** The ports kept from a port list, and the diagnostics for the items dropped. */
  datatype PortsParsed = PortsParsed(ports: seq<Port>, diagnostics: seq<Diagnostic>)

  /** The range the parser accepts: `port > 0 and port < 65536`. */
  predicate InRange(n: int) {
    0 < n < 65536
  }

  predicate ValidPort(p: Port) {
    InRange(p.number) && (p.protocol == "tcp" || p.protocol == "udp")
  }

  /** `port_data[0]`: the text of an item before its first `/`. */
  function NumberToken(item: string): string {
    Split(item, '/')[0]
  }

  /**
   * One item of the port list: its number token must be an integer in range,
   * and the protocol is "udp" when the item splits on `/` into exactly two
   * parts the second of which is "udp", and "tcp" otherwise.
   */
  function ParsePortItem(item: string, line: string): (r: ItemResult)
    ensures r.Accepted? ==> ValidPort(r.port)
    ensures r.Rejected? ==> r.diagnostic == InvalidPort(NumberToken(item), line)
  {
    var portData := Split(item, '/');
    var number := ParseInt(portData[0]);
    if number.None? || !InRange(number.value) then
      Rejected(InvalidPort(portData[0], line))
    else
      var protocol := if |portData| == 2 && portData[1] == "udp" then "udp" else "tcp";
      Accepted(Port(number.value, protocol))
  }

  /**
   * The port list of a line, item by item from left to right: every item is
   * either kept as a port or reported, and every kept port is valid.
   */
  function ParsePorts(items: seq<string>, line: string): (r: PortsParsed)
    ensures |r.ports| + |r.diagnostics| == |items|
    ensures forall i :: 0 <= i < |r.ports| ==> ValidPort(r.ports[i])
  {
    if items == [] then PortsParsed([], [])
    else
      var done := ParsePorts(items[..|items| - 1], line);
      match ParsePortItem(items[|items| - 1], line)
      case Accepted(p) => PortsParsed(done.ports + [p], done.diagnostics)
      case Rejected(d) => PortsParsed(done.ports, done.diagnostics + [d])
  }

  /** A line that is skipped without a diagnostic once its whitespace is removed. */
  predicate IsSkipped(stripped: string) {
    |stripped| == 0 || stripped[0] == '#'
  }

  /** `parse_target`: one line of the saved-targets file. */
  function ParseTarget(input: string): Parsed {
    var line := RemoveWhitespace(input);
    if IsSkipped(line) then Parsed(None, [])
    else
      var data := Split(line, ':');
      if |data| == 2 then
        var result := ParsePorts(Split(data[1], ','), line);
        Parsed(Some(Target(data[0], result.ports)), result.diagnostics)
      else
        Parsed(None, [UnparsableLine(line)])
  }

  /** `f"{port.number}/{port.protocol}"`. */
  function PortText(p: Port): string {
    IntToString(p.number) + "/" + p.protocol
  }

  /** The string `save_target` accumulates: every port followed by a comma. */
  function PortsField(ports: seq<Port>): string {
    if ports == [] then []
    else PortsField(ports[..|ports| - 1]) + PortText(ports[|ports| - 1]) + ","
  }

  /** `save_target`'s line: `host:` then the port field without trailing commas, then a newline. */
  function RenderTarget(t: Target): string {
    t.host + ":" + RStrip(PortsField(t.ports), ',') + "\n"
  }

  /** The target of a parse result as a list of zero or one targets. */
  function TargetsOf(p: Parsed): seq<Target> {
    match p.target
    case Some(t) => [t]
    case None => []
  }

  /** `load_targets`: the targets parsed from the lines of the file, in file order. */
  function LoadTargets(lines: seq<string>): seq<Target> {
    if lines == [] then []
    else LoadTargets(lines[..|lines| - 1]) + TargetsOf(ParseTarget(lines[|lines| - 1]))
  }

  /**
   * `readlines()`: the text of the file cut after every newline, each line
   * keeping its newline; a last line without one is kept as it is.
   */
  function ReadLines(text: string): seq<string> {
    if text == [] then [] else PrependChar(text[0], ReadLines(text[1..]))
  }

  /**
   * The lines of `[c] + s` from those of `s`: a newline, or a character in
   * front of nothing, starts a line of its own; any other character joins
   * the first line.
   */
  function PrependChar(c: char, lines: seq<string>): seq<string> {
    if c == '\n' || lines == [] then [[c]] + lines
    else [[c] + lines[0]] + lines[1..]
  }

  /** `load_targets` on the text of the saved-targets file. */
  function LoadFile(text: string): seq<Target> {
    LoadTargets(ReadLines(text))
  }

  // ---------------------------------------------------------------------------
  // The three loops of the source, as loops
  // ---------------------------------------------------------------------------

  /** `parse_target`: the skip test, the colon split, then the item loop. */
  method ParseTargetLine(input: string) returns (r: Parsed)
    ensures r == ParseTarget(input)
  {
    var line := RemoveWhitespace(input);
    if |line| == 0 || line[0] == '#' {
      return Parsed(None, []);
    }
    var data := Split(line, ':');
    if |data| == 2 {
      var host := data[0];
      var result := ParseItemList(Split(data[1], ','), line);
      r := Parsed(Some(Target(host, result.ports)), result.diagnostics);
    } else {
      r := Parsed(None, [UnparsableLine(line)]);
    }
  }

  /** The item loop of `parse_target`, appending each kept port or each diagnostic. */
  method ParseItemList(items: seq<string>, line: string) returns (result: PortsParsed)
    ensures result == ParsePorts(items, line)
  {
    var portList: seq<Port> := [];
    var diagnostics: seq<Diagnostic> := [];
    for i := 0 to |items|
      invariant PortsParsed(portList, diagnostics) == ParsePorts(items[..i], line)
    {
      assert items[..i + 1][..i] == items[..i];
      match ParsePortItem(items[i], line)
      case Accepted(p) =>
        portList := portList + [p];
      case Rejected(d) =>
        diagnostics := diagnostics + [d];
    }
    assert items[..|items|] == items;
    result := PortsParsed(portList, diagnostics);
  }

  /** `save_target`'s line, accumulating the port field in a loop. */
  method SaveTargetLine(t: Target) returns (line: string)
    ensures line == RenderTarget(t)
  {
    var ports: string := "";
    for i := 0 to |t.ports|
      invariant ports == PortsField(t.ports[..i])
    {
      assert t.ports[..i + 1][..i] == t.ports[..i];
      ports := ports + PortText(t.ports[i]) + ",";
    }
    assert t.ports[..|t.ports|] == t.ports;
    line := t.host + ":" + RStrip(ports, ',') + "\n";
  }

  /** `load_targets` over the lines already read from the file. */
  method LoadTargetLines(lines: seq<string>) returns (targetList: seq<Target>)
    ensures targetList == LoadTargets(lines)
  {
    targetList := [];
    for i := 0 to |lines|
      invariant targetList == LoadTargets(lines[..i])
    {
      assert lines[..i + 1][..i] == lines[..i];
      var target := ParseTargetLine(lines[i]);
      if target.target.Some? {
        targetList := targetList + [target.target.value];
      }
    }
    assert lines[..|lines|] == lines;
  }
}
