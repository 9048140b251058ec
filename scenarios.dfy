/**
 * Worked lines of the saved-targets file and what parsing them gives. Each
 * is proved from small facts about its pieces.
 */
module Scenarios {
  import opened Wrappers
  import opened Text
  import opened TargetStore
  import opened StoreProperties

  // Scenario A: `example.com:80/tcp,7000/udp,  9999  `

  lemma LineAPieces(input: string, head: string, gap: string, tail: string)
    requires input == "example.com:80/tcp,7000/udp,  9999  "
    requires head == input[..28] && gap == input[28..30] && tail == input[30..34]
    ensures input == head + gap + tail + gap
    ensures head == "example.com:80/tcp,7000/udp," && tail == "9999"
    ensures head + tail == "example.com:80/tcp,7000/udp,9999"
    ensures HasNoWhitespace(head) && HasNoWhitespace(tail) && AllWhitespace(gap)
  {
    assert forall i | 0 <= i < 28 :: !IsWhitespace(input[i]);
  }

  lemma LineAWhitespace(input: string, head: string, gap: string, tail: string)
    requires input == head + gap + tail + gap
    requires HasNoWhitespace(head) && HasNoWhitespace(tail) && AllWhitespace(gap)
    ensures RemoveWhitespace(input) == head + tail
  {
    assert input == head + gap + (tail + gap);
    assert tail + gap == tail + gap + [];
    RemoveWhitespaceGap(head, gap, tail + gap);
    RemoveWhitespaceGap(tail, gap, []);
    RemoveWhitespaceIdentity(head);
    RemoveWhitespaceIdentity(tail);
    assert RemoveWhitespace([]) == [];
  }

  lemma HostAShape(host: string)
    requires host == "example.com"
    ensures ':' !in host && HasNoWhitespace(host) && host[0] != '#'
  {
    assert forall i | 0 <= i < |host| :: !IsWhitespace(host[i]) && host[i] != ':';
  }

  lemma PortsAShape(ports: string)
    requires ports == "80/tcp,7000/udp,9999"
    ensures ':' !in ports && HasNoWhitespace(ports)
  {
    assert forall i | 0 <= i < |ports| :: !IsWhitespace(ports[i]) && ports[i] != ':';
  }

  lemma LineAShape(line: string, host: string, ports: string)
    requires line == "example.com:80/tcp,7000/udp,9999" && host == line[..11] && ports == line[12..]
    ensures line == host + [':'] + ports
    ensures host == "example.com" && ports == "80/tcp,7000/udp,9999"
  {
    assert line[11] == ':';
    assert line == line[..11] + [line[11]] + line[12..];
  }

  /** Three separator-free runs joined by two separators split back into those runs. */
  lemma SplitThree(a: string, b: string, c: string, sep: char)
    requires sep !in a && sep !in b && sep !in c
    ensures Split(a + [sep] + (b + [sep] + c), sep) == [a, b, c]
  {
    SplitPair(b, c, sep);
    SplitAfterPart(a, sep, b + [sep] + c);
  }

  /** A string whose only separators are at `i` and `j` splits into the three runs between them. */
  lemma SplitAtTwo(s: string, sep: char, i: nat, j: nat)
    requires i < j < |s|
    requires forall k | 0 <= k < |s| :: s[k] == sep <==> k == i || k == j
    ensures Split(s, sep) == [s[..i], s[i + 1..j], s[j + 1..]]
  {
    var a, b, c := s[..i], s[i + 1..j], s[j + 1..];
    assert s[i + 1..] == b + [sep] + c;
    assert s == a + [sep] + s[i + 1..];
    SplitThree(a, b, c, sep);
  }

  /** A string whose only separator is at `i` splits into the runs before and after it. */
  lemma SplitAtOne(s: string, sep: char, i: nat)
    requires i < |s|
    requires forall k | 0 <= k < |s| :: s[k] == sep <==> k == i
    ensures Split(s, sep) == [s[..i], s[i + 1..]]
  {
    assert s == s[..i] + [sep] + s[i + 1..];
    SplitPair(s[..i], s[i + 1..], sep);
  }

  lemma LineACommas(ports: string)
    requires ports == "80/tcp,7000/udp,9999"
    ensures forall k | 0 <= k < |ports| :: ports[k] == ',' <==> k == 6 || k == 15
    ensures ports[..6] == "80/tcp" && ports[7..15] == "7000/udp" && ports[16..] == "9999"
  {
  }

  lemma LineAItems(ports: string)
    requires ports == "80/tcp,7000/udp,9999"
    ensures Split(ports, ',') == ["80/tcp", "7000/udp", "9999"]
  {
    LineACommas(ports);
    SplitAtTwo(ports, ',', 6, 15);
  }

  lemma Item80Tcp(item: string, line: string)
    requires item == "80/tcp"
    ensures ParsePortItem(item, line) == Accepted(Port(80, "tcp"))
  {
    assert IntToString(80) == "80" by { assert NatToString(8) == "8"; }
    assert item == IntToString(80) + ['/'] + "tcp";
    ItemWithProtocol(80, "tcp", line);
  }

  lemma Item7000Udp(item: string, line: string)
    requires item == "7000/udp"
    ensures ParsePortItem(item, line) == Accepted(Port(7000, "udp"))
  {
    assert IntToString(7000) == "7000" by {
      assert NatToString(7) == "7";
      assert NatToString(70) == "70";
      assert NatToString(700) == "700";
    }
    assert item == IntToString(7000) + ['/'] + "udp";
    ItemWithProtocol(7000, "udp", line);
  }

  lemma Item9999(item: string, line: string)
    requires item == "9999"
    ensures ParsePortItem(item, line) == Accepted(Port(9999, "tcp"))
  {
    assert IntToString(9999) == "9999" by {
      assert NatToString(9) == "9";
      assert NatToString(99) == "99";
      assert NatToString(999) == "999";
    }
    ItemWithoutProtocol(9999, line);
  }

  lemma LineAPorts(a: string, b: string, c: string, line: string)
    requires a == "80/tcp" && b == "7000/udp" && c == "9999"
    ensures ParsePorts([a, b, c], line)
         == PortsParsed([Port(80, "tcp"), Port(7000, "udp"), Port(9999, "tcp")], [])
  {
    Item80Tcp(a, line);
    Item7000Udp(b, line);
    Item9999(c, line);
    assert [a, b, c][..2] == [a, b] && [a, b][..1] == [a] && [a][..0] == [];
    assert ParsePorts([a], line) == PortsParsed([Port(80, "tcp")], []);
    assert ParsePorts([a, b], line) == PortsParsed([Port(80, "tcp"), Port(7000, "udp")], []);
  }

  lemma LineA(line: string)
    requires line == "example.com:80/tcp,7000/udp,9999"
    ensures ParseTarget(line)
         == Parsed(Some(Target("example.com", [Port(80, "tcp"), Port(7000, "udp"), Port(9999, "tcp")])), [])
  {
    var host, ports := line[..11], line[12..];
    LineAShape(line, host, ports);
    HostAShape(host);
    PortsAShape(ports);
    WellFormedLine(host, ports);
    LineAItems(ports);
    var items := Split(ports, ',');
    LineAPorts(items[0], items[1], items[2], line);
    assert items == [items[0], items[1], items[2]];
  }

  /** Whitespace between items and at the end of a line is dropped; the items are kept in order. */
  lemma ScenarioA(input: string)
    requires input == "example.com:80/tcp,7000/udp,  9999  "
    ensures ParseTarget(input)
         == Parsed(Some(Target("example.com", [Port(80, "tcp"), Port(7000, "udp"), Port(9999, "tcp")])), [])
  {
    var head, gap, tail := input[..28], input[28..30], input[30..34];
    LineAPieces(input, head, gap, tail);
    LineAWhitespace(input, head, gap, tail);
    ParseIgnoresWhitespace(input);
    LineA(head + tail);
  }

  // Scenario B: `bad-line-no-colon`

  /** A whitespace-free line that is not a comment and holds no colon is rejected as it stands. */
  lemma NoColon(line: string)
    requires HasNoWhitespace(line) && ':' !in line && line != [] && line[0] != '#'
    ensures ParseTarget(line) == Parsed(None, [UnparsableLine(line)])
  {
    RemoveWhitespaceIdentity(line);
    SplitWithoutSeparator(line, ':');
  }

  lemma LineBShape(line: string)
    requires line == "bad-line-no-colon"
    ensures HasNoWhitespace(line) && ':' !in line && line != [] && line[0] != '#'
  {
    assert forall i | 0 <= i < |line| :: !IsWhitespace(line[i]) && line[i] != ':';
  }

  /** A line without a colon is rejected with one diagnostic. */
  lemma ScenarioB(line: string)
    requires line == "bad-line-no-colon"
    ensures ParseTarget(line) == Parsed(None, [UnparsableLine(line)])
  {
    LineBShape(line);
    NoColon(line);
  }

  // Scenario C: `host:abc/tcp,22/tcp`

  lemma ItemAbcTcp(item: string, line: string)
    requires item == "abc/tcp"
    ensures ParsePortItem(item, line) == Rejected(InvalidPort("abc", line))
  {
    assert item == "abc" + ['/'] + "tcp";
    SplitAfterPart("abc", '/', "tcp");
    assert !IsIntLiteral("abc") by { assert !IsDigit("abc"[0]) && !IsDigit("abc"[1]); }
  }

  lemma Item22Tcp(item: string, line: string)
    requires item == "22/tcp"
    ensures ParsePortItem(item, line) == Accepted(Port(22, "tcp"))
  {
    assert IntToString(22) == "22" by { assert NatToString(2) == "2"; }
    assert item == IntToString(22) + ['/'] + "tcp";
    ItemWithProtocol(22, "tcp", line);
  }

  lemma LineCPorts(a: string, b: string, line: string)
    requires a == "abc/tcp" && b == "22/tcp"
    ensures ParsePorts([a, b], line) == PortsParsed([Port(22, "tcp")], [InvalidPort("abc", line)])
  {
    ItemAbcTcp(a, line);
    Item22Tcp(b, line);
    assert [a, b][..1] == [a] && [a][..0] == [];
  }

  lemma LineCShape(line: string, host: string, ports: string)
    requires line == "host:abc/tcp,22/tcp" && host == line[..4] && ports == line[5..]
    ensures line == host + [':'] + ports
    ensures host == "host" && ports == "abc/tcp,22/tcp"
    ensures ':' !in host && ':' !in ports && HasNoWhitespace(host) && HasNoWhitespace(ports)
    ensures host == [] || host[0] != '#'
  {
    assert forall i | 0 <= i < |line| :: !IsWhitespace(line[i]) && (i != 4 ==> line[i] != ':');
  }

  lemma LineCCommas(ports: string)
    requires ports == "abc/tcp,22/tcp"
    ensures forall k | 0 <= k < |ports| :: ports[k] == ',' <==> k == 7
    ensures ports[..7] == "abc/tcp" && ports[8..] == "22/tcp"
  {
  }

  lemma LineCItems(ports: string)
    requires ports == "abc/tcp,22/tcp"
    ensures Split(ports, ',') == ["abc/tcp", "22/tcp"]
  {
    LineCCommas(ports);
    SplitAtOne(ports, ',', 7);
  }

  /** A non-numeric item is dropped with a diagnostic; the other item and the host are kept. */
  lemma ScenarioC(line: string)
    requires line == "host:abc/tcp,22/tcp"
    ensures ParseTarget(line)
         == Parsed(Some(Target("host", [Port(22, "tcp")])), [InvalidPort("abc", line)])
  {
    var host, ports := line[..4], line[5..];
    LineCShape(line, host, ports);
    WellFormedLine(host, ports);
    LineCItems(ports);
    var items := Split(ports, ',');
    LineCPorts(items[0], items[1], line);
    assert items == [items[0], items[1]];
  }

  // Further lines

  /** Splitting on every colon rejects an IPv6 literal host. */
  lemma Ipv6Rejected(line: string)
    requires line == "::1:22/tcp"
    ensures ParseTarget(line) == Parsed(None, [UnparsableLine(line)])
  {
    assert forall i | 0 <= i < |line| :: !IsWhitespace(line[i]);
    RemoveWhitespaceIdentity(line);
    assert line == [] + [':'] + line[1..];
    assert line[1..] == [] + [':'] + line[2..];
    SplitAfterPart([], ':', line[1..]);
    SplitAfterPart([], ':', line[2..]);
  }

  /** A comment line, even one holding a valid target after the `#`, is skipped silently. */
  lemma CommentSkipped(input: string)
    requires input == "  # host:22/tcp"
    ensures ParseTarget(input) == Parsed(None, [])
  {
    assert input[2] == '#' && input[..2] == "  ";
    assert AllWhitespace(input[..2]);
    RemoveWhitespaceHead(input, '#');
  }
}
