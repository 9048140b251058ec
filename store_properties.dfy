/**
 * What the line parser promises: whitespace does not matter, blank and
 * comment lines are skipped silently, the colon rule, per-item rejection that
 * leaves the rest of the line alone, the port range and the protocol default.
 */
module StoreProperties {
  import opened Wrappers
  import opened Text
  import opened TargetStore

  // ---------------------------------------------------------------------------
  // Whitespace
  // ---------------------------------------------------------------------------

  /** Parsing a line and parsing it with its whitespace removed agree, diagnostics included. */
  lemma ParseIgnoresWhitespace(s: string)
    ensures ParseTarget(s) == ParseTarget(RemoveWhitespace(s))
  {
    RemoveWhitespaceIdempotent(s);
  }

  /** A whitespace character inserted anywhere in a line changes nothing. */
  lemma ParseIgnoresInsertedWhitespace(a: string, w: char, b: string)
    requires IsWhitespace(w)
    ensures ParseTarget(a + [w] + b) == ParseTarget(a + b)
  {
    RemoveWhitespaceAppend(a + [w], b);
    RemoveWhitespaceAppend(a, [w]);
    RemoveWhitespaceAppend(a, b);
    assert RemoveWhitespace([w]) == RemoveWhitespace([]) by { assert [w][1..] == []; }
    assert RemoveWhitespace(a + [w] + b) == RemoveWhitespace(a + b);
  }

  // ---------------------------------------------------------------------------
  // Blank lines, comments and the colon rule
  // ---------------------------------------------------------------------------

  /** A line of whitespace only, or whose first non-whitespace character is `#`. */
  predicate IsBlankOrComment(s: string) {
    AllWhitespace(s) || FirstNonWhitespaceIs(s, '#')
  }

  lemma SkippedExactly(s: string)
    ensures IsSkipped(RemoveWhitespace(s)) <==> IsBlankOrComment(s)
  {
    RemoveWhitespaceEmpty(s);
    RemoveWhitespaceHead(s, '#');
  }

  /** Exactly the blank and comment lines give no target and no diagnostic. */
  lemma BlankAndCommentLines(s: string)
    ensures ParseTarget(s) == Parsed(None, []) <==> IsBlankOrComment(s)
  {
    SkippedExactly(s);
  }

  /**
   * Any other line gives no target exactly when it does not hold exactly one
   * `:`, and then exactly one diagnostic, quoting the line without whitespace.
   */
  lemma ColonRule(s: string)
    requires !IsBlankOrComment(s)
    ensures ParseTarget(s).target.None? <==> Count(s, ':') != 1
    ensures Count(s, ':') != 1 ==> ParseTarget(s).diagnostics == [UnparsableLine(RemoveWhitespace(s))]
  {
    SkippedExactly(s);
    CountRemoveWhitespace(s, ':');
  }

  /**
   * With exactly one `:`, the host is the (possibly empty) text before it and
   * every comma-separated item after it is either kept as a valid port or
   * reported by one diagnostic.
   */
  lemma HostAndPortItems(s: string)
    requires !IsBlankOrComment(s) && Count(s, ':') == 1
    ensures ParseTarget(s).target.Some?
    ensures var t := ParseTarget(s).target.value;
            var line := RemoveWhitespace(s);
            && ':' !in t.host
            && |t.host| < |line| && line == t.host + [':'] + line[|t.host| + 1..]
            && ':' !in line[|t.host| + 1..]
            && |t.ports| + |ParseTarget(s).diagnostics| == Count(line[|t.host| + 1..], ',') + 1
            && forall i :: 0 <= i < |t.ports| ==> ValidPort(t.ports[i])
  {
    SkippedExactly(s);
    CountRemoveWhitespace(s, ':');
    var line := RemoveWhitespace(s);
    var data := Split(line, ':');
    JoinSplit(line, ':');
    assert Join(data, ':') == data[0] + [':'] + data[1] by {
      assert data[1..] == [data[1]];
    }
    assert line[|data[0]| + 1..] == data[1];
  }

  /**
   * A line made of a host without `:`, `#` at its start or whitespace, a
   * colon, and a port list without `:` or whitespace parses to that host and
   * whatever the port list yields.
   */
  lemma WellFormedLine(host: string, ports: string)
    requires ':' !in host && ':' !in ports
    requires HasNoWhitespace(host) && HasNoWhitespace(ports)
    requires host == [] || host[0] != '#'
    ensures var line := host + [':'] + ports;
            var r := ParsePorts(Split(ports, ','), line);
            ParseTarget(line) == Parsed(Some(Target(host, r.ports)), r.diagnostics)
  {
    var line := host + [':'] + ports;
    CleanLine(host, ports);
    assert Split(line, ':')[1] == ports;
  }

  /** The facts about a well-formed line that parsing it depends on. */
  lemma CleanLine(host: string, ports: string)
    requires ':' !in host && ':' !in ports
    requires HasNoWhitespace(host) && HasNoWhitespace(ports)
    requires host == [] || host[0] != '#'
    ensures var line := host + [':'] + ports;
            && RemoveWhitespace(line) == line
            && !IsSkipped(line)
            && Split(line, ':') == [host, ports]
  {
    var line := host + [':'] + ports;
    assert HasNoWhitespace(line);
    RemoveWhitespaceIdentity(line);
    assert !IsSkipped(line) by {
      if host == [] { assert line[0] == ':'; } else { assert line[0] == host[0]; }
    }
    SplitAfterPart(host, ':', ports);
    SplitWithoutSeparator(ports, ':');
  }

  // ---------------------------------------------------------------------------
  // The port list
  // ---------------------------------------------------------------------------

  /** One more item adds its port or its diagnostic at the end. */
  lemma ParsePortsSnoc(items: seq<string>, item: string, line: string)
    ensures var done := ParsePorts(items, line);
            ParsePorts(items + [item], line)
              == match ParsePortItem(item, line)
                 case Accepted(p) => PortsParsed(done.ports + [p], done.diagnostics)
                 case Rejected(d) => PortsParsed(done.ports, done.diagnostics + [d])
  {
    assert (items + [item])[..|items|] == items;
  }

  /** Parsing a port list is parsing its two halves one after the other. */
  lemma {:induction false} ParsePortsAppend(a: seq<string>, b: seq<string>, line: string)
    ensures ParsePorts(a + b, line)
         == PortsParsed(ParsePorts(a, line).ports + ParsePorts(b, line).ports,
                        ParsePorts(a, line).diagnostics + ParsePorts(b, line).diagnostics)
  {
    if b == [] {
      assert a + b == a;
    } else {
      var b', x := b[..|b| - 1], b[|b| - 1];
      assert a + b == (a + b') + [x];
      assert b == b' + [x];
      ParsePortsSnoc(a + b', x, line);
      ParsePortsSnoc(b', x, line);
      ParsePortsAppend(a, b', line);
    }
  }

  /**
   * Each item is judged on its own: an accepted item contributes its port at
   * its place between the ports of the items before and after it, and a
   * rejected one contributes only its diagnostic, leaving the ports of the
   * other items as if it had not been there.
   */
  lemma ItemsIndependent(items: seq<string>, i: nat, line: string)
    requires i < |items|
    ensures var before := ParsePorts(items[..i], line);
            var after := ParsePorts(items[i + 1..], line);
            match ParsePortItem(items[i], line)
            case Accepted(p) =>
              ParsePorts(items, line) == PortsParsed(before.ports + [p] + after.ports,
                                                     before.diagnostics + after.diagnostics)
            case Rejected(d) =>
              && ParsePorts(items, line) == PortsParsed(before.ports + after.ports,
                                                        before.diagnostics + [d] + after.diagnostics)
              && ParsePorts(items, line).ports == ParsePorts(items[..i] + items[i + 1..], line).ports
  {
    assert items == items[..i] + [items[i]] + items[i + 1..];
    ParsePortsAppend(items[..i] + [items[i]], items[i + 1..], line);
    ParsePortsAppend(items[..i], [items[i]], line);
    ParsePortsAppend(items[..i], items[i + 1..], line);
    assert [items[i]][..0] == [];
  }

  /**
   * An item whose number token is an integer literal, written as an
   * optional sign, some zeros and the decimal text of `m` (alone, or followed
   * by a `/` suffix), is kept exactly when its value n is in 0 < n < 65536,
   * with that number; otherwise it is reported with its token.
   */
  lemma PortNumberBounds(sign: string, k: nat, m: nat, suffix: string, line: string)
    requires sign == "" || sign == "+" || sign == "-"
    requires suffix == [] || suffix[0] == '/'
    ensures var token := sign + Zeros(k) + NatToString(m);
            var n := if sign == "-" then -(m as int) else m as int;
            var r := ParsePortItem(token + suffix, line);
            && (r.Accepted? <==> InRange(n))
            && (r.Accepted? ==> r.port.number == n)
            && (r.Rejected? ==> r.diagnostic == InvalidPort(token, line))
  {
    var token := sign + Zeros(k) + NatToString(m);
    LiteralNoSlash(sign, k, m);
    TokenBeforeSuffix(token, suffix);
    ParseIntLiteral(sign, k, m);
  }

  /** A token without `/` followed by nothing or by a `/` suffix is the item's number token. */
  lemma TokenBeforeSuffix(token: string, suffix: string)
    requires '/' !in token
    requires suffix == [] || suffix[0] == '/'
    ensures NumberToken(token + suffix) == token
  {
    if suffix == [] {
      assert token + suffix == token;
      SplitWithoutSeparator(token, '/');
    } else {
      assert token + suffix == token + ['/'] + suffix[1..];
      SplitAfterPart(token, '/', suffix[1..]);
    }
  }

  /** An integer literal holds no `/`. */
  lemma LiteralNoSlash(sign: string, k: nat, m: nat)
    requires sign == "" || sign == "+" || sign == "-"
    ensures '/' !in sign + Zeros(k) + NatToString(m)
  {
    var token := sign + Zeros(k) + NatToString(m);
    forall i | 0 <= i < |token| ensures token[i] != '/' {
      if i >= |sign| + k {
        assert token[i] == NatToString(m)[i - |sign| - k];
      } else if i >= |sign| {
        assert token[i] == Zeros(k)[i - |sign|];
      }
    }
  }

  /**
   * Every item splits into its number token and a rest that is empty or
   * starts with `/`; an item whose token is no integer literal is reported.
   */
  lemma TokenAndRest(item: string, line: string)
    ensures var token := NumberToken(item);
            var rest := item[|token|..];
            && item == token + rest
            && (rest == [] || rest[0] == '/')
            && (!IsIntLiteral(token) ==> ParsePortItem(item, line) == Rejected(InvalidPort(token, line)))
  {
  }

  /**
   * The protocol is "udp" exactly when the item holds exactly one `/` and
   * the text after it is "udp"; every other accepted item is "tcp".
   */
  lemma ProtocolRule(item: string, line: string)
    requires ParsePortItem(item, line).Accepted?
    ensures var p := ParsePortItem(item, line).port;
            && (p.protocol == "udp" <==> Count(item, '/') == 1 && EndsWith(item, "/udp"))
            && (p.protocol != "udp" ==> p.protocol == "tcp")
  {
    if Count(item, '/') == 1 {
      UdpSuffix(item);
    }
  }

  /** With a single `/`, the text after it is "udp" exactly when the item ends in "/udp". */
  lemma UdpSuffix(item: string)
    requires Count(item, '/') == 1
    ensures |Split(item, '/')| == 2
    ensures Split(item, '/')[1] == "udp" <==> EndsWith(item, "/udp")
  {
    SplitOnce(item, '/');
    var portData := Split(item, '/');
    assert "/udp" == ['/'] + "udp";
    EndsWithPart(portData[0], '/', portData[1], "udp");
  }

  /** The decimal text of a number holds no `/`. */
  lemma NumberTextNoSlash(n: int)
    ensures '/' !in IntToString(n)
  {
    var digits := IntToString(n);
    forall i | 0 <= i < |digits| ensures digits[i] != '/' {
      assert IsDigit(digits[i]) || digits[i] == '-';
    }
  }

  /**
   * An item written as a number, a `/` and a protocol word without a `/`:
   * kept with that number when it is in range, with "udp" exactly when the
   * word is "udp", and reported with the number's text otherwise.
   */
  lemma ItemWithProtocol(n: int, protocol: string, line: string)
    requires '/' !in protocol
    ensures ParsePortItem(IntToString(n) + ['/'] + protocol, line)
         == if InRange(n) then Accepted(Port(n, if protocol == "udp" then "udp" else "tcp"))
            else Rejected(InvalidPort(IntToString(n), line))
  {
    var digits := IntToString(n);
    NumberTextNoSlash(n);
    SplitPair(digits, protocol, '/');
    ParseIntToString(n);
  }

  /** An item that is a bare number: kept as a tcp port when in range, reported otherwise. */
  lemma ItemWithoutProtocol(n: int, line: string)
    ensures ParsePortItem(IntToString(n), line)
         == if InRange(n) then Accepted(Port(n, "tcp"))
            else Rejected(InvalidPort(IntToString(n), line))
  {
    var digits := IntToString(n);
    NumberTextNoSlash(n);
    SplitWithoutSeparator(digits, '/');
    ParseIntToString(n);
  }

  /** A sign and leading zeros are accepted in front of a port number. */
  lemma PaddedNumber(token: string, line: string)
    requires token == "+0080"
    ensures ParsePortItem(token, line).Accepted?
    ensures ParsePortItem(token, line).port.number == 80
  {
    assert NatToString(80) == "80" by {
      assert NatToString(8) == "8";
    }
    assert Zeros(2) == "00" by {
      assert Zeros(1) == "0";
    }
    var literal := "+" + Zeros(2) + NatToString(80);
    assert literal == token;
    assert literal + [] == token;
    PortNumberBounds("+", 2, 80, [], line);
  }

  /** Zero is out of range however many zeros spell it. */
  lemma ZeroPadded(token: string, line: string)
    requires token == "0000"
    ensures ParsePortItem(token, line) == Rejected(InvalidPort(token, line))
  {
    assert Zeros(3) == "000" by {
      assert Zeros(1) == "0";
      assert Zeros(2) == "00";
    }
    assert NatToString(0) == "0";
    var literal := "" + Zeros(3) + NatToString(0);
    assert literal == token;
    assert literal + [] == token;
    PortNumberBounds("", 3, 0, [], line);
  }

  /** An item that starts with the number token "80" is kept as port 80. */
  lemma EightyKept(suffix: string, line: string)
    requires suffix == [] || suffix[0] == '/'
    ensures ParsePortItem("80" + suffix, line).Accepted?
    ensures ParsePortItem("80" + suffix, line).port.number == 80
  {
    assert NatToString(80) == "80" by {
      assert NatToString(8) == "8";
    }
    assert "" + Zeros(0) + NatToString(80) == "80";
    PortNumberBounds("", 0, 80, suffix, line);
  }

  // A missing protocol, and every suffix other than exactly "/udp", give tcp.

  lemma ProtocolMissing(line: string)
    ensures ParsePortItem("80", line) == Accepted(Port(80, "tcp"))
  {
    EightyKept("", line);
    assert "80" + "" == "80";
    ProtocolRule("80", line);
  }

  lemma ProtocolUdp(line: string)
    ensures ParsePortItem("80/udp", line) == Accepted(Port(80, "udp"))
  {
    EightyKept("/udp", line);
    assert "80" + "/udp" == "80/udp";
    ProtocolRule("80/udp", line);
    assert EndsWith("80/udp", "/udp");
  }

  lemma ProtocolUpperCase(line: string)
    ensures ParsePortItem("80/UDP", line) == Accepted(Port(80, "tcp"))
  {
    EightyKept("/UDP", line);
    assert "80" + "/UDP" == "80/UDP";
    ProtocolRule("80/UDP", line);
  }

  lemma ProtocolMisspelt(line: string)
    ensures ParsePortItem("80/ucp", line) == Accepted(Port(80, "tcp"))
  {
    EightyKept("/ucp", line);
    assert "80" + "/ucp" == "80/ucp";
    ProtocolRule("80/ucp", line);
  }

  lemma ProtocolExtraSlash(line: string)
    ensures ParsePortItem("80/udp/x", line) == Accepted(Port(80, "tcp"))
  {
    EightyKept("/udp/x", line);
    assert "80" + "/udp/x" == "80/udp/x";
    ProtocolRule("80/udp/x", line);
  }
}
