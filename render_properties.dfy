/**
 * The line `save_target` writes, and the law that parsing it gives back the
 * target for every target the file format can hold.
 */
module RenderProperties {
  import opened Wrappers
  import opened Text
  import opened TargetStore
  import opened StoreProperties

  /** The rendered text of each port, in order. */
  function PortTexts(ports: seq<Port>): seq<string> {
    if ports == [] then [] else PortTexts(ports[..|ports| - 1]) + [PortText(ports[|ports| - 1])]
  }

  /** The accumulated field is the comma-join of the port texts with one comma after it. */
  lemma {:induction false} PortsFieldIsJoin(ports: seq<Port>)
    requires ports != []
    ensures PortsField(ports) == Join(PortTexts(ports), ',') + ","
  {
    var init := ports[..|ports| - 1];
    if init != [] {
      PortsFieldIsJoin(init);
      assert PortTexts(ports) == PortTexts(init) + [PortText(ports[|ports| - 1])];
      JoinSnoc(PortTexts(init), PortText(ports[|ports| - 1]), ',');
    } else {
      assert PortTexts(ports) == [PortText(ports[0])];
    }
  }

  /**
   * `save_target` writes `host:` followed by the port texts joined by commas
   * and a newline, with no trailing comma, whenever the last protocol does not
   * itself end in a comma (tcp and udp do not); with no ports it writes
   * `host:` and the newline.
   */
  lemma RenderFormat(t: Target)
    requires t.ports == [] || !EndsWith(t.ports[|t.ports| - 1].protocol, ",")
    ensures RenderTarget(t) == t.host + ":" + Join(PortTexts(t.ports), ',') + "\n"
    ensures t.ports == [] ==> RenderTarget(t) == t.host + ":\n"
  {
    if t.ports != [] {
      PortsFieldIsJoin(t.ports);
      var texts := PortTexts(t.ports);
      var joined := Join(texts, ',');
      JoinedEnd(t.ports);
      RStripOne(joined, ',');
    } else {
      assert RenderTarget(t) == t.host + ":" + "" + "\n";
    }
  }

  /** The join of the port texts ends in the last character of the last port's text. */
  lemma JoinedEnd(ports: seq<Port>)
    requires ports != [] && !EndsWith(ports[|ports| - 1].protocol, ",")
    ensures var joined := Join(PortTexts(ports), ',');
            joined != [] && joined[|joined| - 1] != ','
  {
    var texts := PortTexts(ports);
    var joined := Join(texts, ',');
    var last := ports[|ports| - 1];
    assert texts[|texts| - 1] == PortText(last);
    PortTextEnd(last);
    JoinEndsWithLastPart(texts, ',');
    assert joined[|joined| - 1] == PortText(last)[|PortText(last)| - 1];
  }

  /** The text of a port whose protocol does not end in a comma does not end in one either. */
  lemma PortTextEnd(p: Port)
    requires !EndsWith(p.protocol, ",")
    ensures PortText(p) != [] && PortText(p)[|PortText(p)| - 1] != ','
  {
    var text := PortText(p);
    assert text == IntToString(p.number) + "/" + p.protocol;
    if p.protocol == [] {
      assert text[|text| - 1] == '/';
    } else {
      assert text[|text| - 1] == p.protocol[|p.protocol| - 1];
      assert p.protocol[|p.protocol| - 1..] != ",";
    }
  }

  /** What the file format can hold: a host the parser reads back, and valid ports. */
  predicate Storable(t: Target) {
    && ':' !in t.host
    && HasNoWhitespace(t.host)
    && (t.host == [] || t.host[0] != '#')
    && forall i :: 0 <= i < |t.ports| ==> ValidPort(t.ports[i])
  }

  lemma ProtocolShape(p: Port)
    requires ValidPort(p)
    ensures ':' !in p.protocol && ',' !in p.protocol && '/' !in p.protocol
    ensures HasNoWhitespace(p.protocol)
  {
  }

  /** The text of a valid port holds no separator of the line format and no whitespace. */
  lemma PortTextShape(p: Port)
    requires ValidPort(p)
    ensures ':' !in PortText(p) && ',' !in PortText(p) && HasNoWhitespace(PortText(p))
    ensures Split(PortText(p), '/') == [IntToString(p.number), p.protocol]
  {
    ProtocolShape(p);
    NumberTextShape(p.number);
    PortTextSplit(IntToString(p.number), p.protocol);
  }

  /** A number text and a protocol word joined by `/`: their separators, and how the item splits. */
  lemma PortTextSplit(digits: string, protocol: string)
    requires '/' !in digits && '/' !in protocol
    ensures var text := digits + "/" + protocol;
            && Split(text, '/') == [digits, protocol]
            && (':' !in text <==> ':' !in digits && ':' !in protocol)
            && (',' !in text <==> ',' !in digits && ',' !in protocol)
            && (HasNoWhitespace(text) <==> HasNoWhitespace(digits) && HasNoWhitespace(protocol))
  {
    var text := digits + "/" + protocol;
    assert text == digits + ['/'] + protocol;
    SplitWithoutSeparator(protocol, '/');
    SplitAfterPart(digits, '/', protocol);
    assert forall i | 0 <= i < |text| :: text[i] == (if i < |digits| then digits[i] else if i == |digits| then '/' else protocol[i - |digits| - 1]);
    if HasNoWhitespace(text) {
      assert forall i | 0 <= i < |digits| :: digits[i] == text[i];
      assert forall i | 0 <= i < |protocol| :: protocol[i] == text[i + |digits| + 1];
    }
  }

  /** The decimal text of a port number is made of digits only. */
  lemma NumberTextShape(n: int)
    requires InRange(n)
    ensures var digits := IntToString(n);
            ':' !in digits && ',' !in digits && '/' !in digits && HasNoWhitespace(digits)
  {
    var digits := IntToString(n);
    assert AllDigits(digits);
    forall i | 0 <= i < |digits| ensures digits[i] != '/' && digits[i] != ':' && digits[i] != ',' {
      assert IsDigit(digits[i]);
    }
  }

  /** The rendered text of a valid port parses back to that port. */
  lemma PortTextParses(p: Port, line: string)
    requires ValidPort(p)
    ensures ParsePortItem(PortText(p), line) == Accepted(p)
  {
    PortTextShape(p);
    ParseIntToString(p.number);
  }

  /** The texts of valid ports parse back to those ports, with no diagnostic. */
  lemma {:induction false} PortTextsParse(ports: seq<Port>, line: string)
    requires forall i :: 0 <= i < |ports| ==> ValidPort(ports[i])
    ensures ParsePorts(PortTexts(ports), line) == PortsParsed(ports, [])
  {
    if ports != [] {
      var init := ports[..|ports| - 1];
      var last := ports[|ports| - 1];
      assert init + [last] == ports;
      assert PortTexts(ports) == PortTexts(init) + [PortText(last)];
      ParsePortsSnoc(PortTexts(init), PortText(last), line);
      PortTextsParse(init, line);
      PortTextParses(last, line);
    }
  }

  /** No text of a valid port holds a separator of the line format or whitespace. */
  lemma {:induction false} PortTextsShape(ports: seq<Port>)
    requires forall i :: 0 <= i < |ports| ==> ValidPort(ports[i])
    ensures forall text :: text in PortTexts(ports) ==>
      ':' !in text && ',' !in text && HasNoWhitespace(text)
  {
    if ports != [] {
      var init := ports[..|ports| - 1];
      PortTextsShape(init);
      PortTextShape(ports[|ports| - 1]);
    }
  }

  /** The comma-join of the texts of valid ports holds no colon and no whitespace. */
  lemma JoinedTextsShape(ports: seq<Port>)
    requires forall i :: 0 <= i < |ports| ==> ValidPort(ports[i])
    ensures var joined := Join(PortTexts(ports), ',');
            ':' !in joined && HasNoWhitespace(joined)
  {
    var texts := PortTexts(ports);
    PortTextsShape(ports);
    JoinWithout(texts, ',', ':');
    JoinNoWhitespace(texts, ',');
  }

  /** The line of a storable target, once whitespace is removed: host, colon, port texts. */
  lemma RenderedLine(t: Target)
    requires Storable(t)
    ensures var joined := Join(PortTexts(t.ports), ',');
            && RemoveWhitespace(RenderTarget(t)) == t.host + [':'] + joined
            && ':' !in joined
  {
    var joined := Join(PortTexts(t.ports), ',');
    var line := t.host + [':'] + joined;
    RenderFormat(t);
    JoinedTextsShape(t.ports);
    assert RenderTarget(t) == line + "\n";
    assert HasNoWhitespace(line);
    assert AllWhitespace("\n");
    RemoveWhitespaceGap(line, "\n", []);
    RemoveWhitespaceIdentity(line);
    assert line + "\n" + [] == line + "\n";
  }

  /**
   * Round trip: the line rendered for a storable target parses back to that
   * target. The only diagnostic is the one an empty port list draws, since
   * `host:` holds the single empty item.
   */
  lemma RoundTrip(t: Target)
    requires Storable(t)
    ensures ParseTarget(RenderTarget(t))
         == Parsed(Some(t), if t.ports == [] then [InvalidPort("", t.host + ":")] else [])
  {
    var texts := PortTexts(t.ports);
    var joined := Join(texts, ',');
    var line := t.host + [':'] + joined;
    RenderedLine(t);
    assert !IsSkipped(line) by {
      if t.host == [] { assert line[0] == ':'; } else { assert line[0] == t.host[0]; }
    }
    SplitAfterPart(t.host, ':', joined);
    SplitWithoutSeparator(joined, ':');
    assert Split(line, ':') == [t.host, joined];
    if t.ports == [] {
      EmptyPortList(line);
      assert line == t.host + ":";
    } else {
      PortTextsShape(t.ports);
      SplitJoin(texts, ',');
      PortTextsParse(t.ports, line);
    }
  }

  /** An empty port list is one empty item, which draws one diagnostic. */
  lemma EmptyPortList(line: string)
    ensures ParsePorts(Split("", ','), line) == PortsParsed([], [InvalidPort("", line)])
  {
    assert Split("", ',') == [""];
    assert Split("", '/') == [""];
    assert ParsePortItem("", line) == Rejected(InvalidPort("", line));
    assert [""][..0] == [];
  }
}
