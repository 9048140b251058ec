/**
 * The saved-targets file as text: how `readlines()` cuts it, and what
 * appending the line of `save_target` does to what `load_targets` reads back.
 */
module FileProperties {
  import opened Text
  import opened TargetStore
  import opened RenderProperties
  import opened LoadProperties

  /** `s` is empty or ends with a newline, as every text `save_target` leaves behind does. */
  predicate Terminated(s: string) {
    s == [] || s[|s| - 1] == '\n'
  }

  /**
   * How `readlines()` cuts: no line is empty, each holds a newline only as
   * its last character, and every line but the last ends with one.
   */
  predicate LinesShape(lines: seq<string>) {
    && (forall i :: 0 <= i < |lines| ==> lines[i] != [])
    && (forall i :: 0 <= i < |lines| ==> '\n' !in lines[i][..|lines[i]| - 1])
    && (forall i :: 0 <= i < |lines| - 1 ==> lines[i][|lines[i]| - 1] == '\n')
  }

  /** The lines put back together are the text, and they are cut as `readlines()` cuts. */
  lemma {:induction false} ReadLinesShape(text: string)
    ensures Concat(ReadLines(text)) == text
    ensures LinesShape(ReadLines(text))
  {
    if text != [] {
      ReadLinesShape(text[1..]);
      PrependShape(text[0], ReadLines(text[1..]));
      assert [text[0]] + text[1..] == text;
    }
  }

  /** Putting a character in front keeps the shape and puts it in front of the text. */
  lemma PrependShape(c: char, lines: seq<string>)
    requires LinesShape(lines)
    ensures Concat(PrependChar(c, lines)) == [c] + Concat(lines)
    ensures LinesShape(PrependChar(c, lines))
  {
    var r := PrependChar(c, lines);
    if c == '\n' || lines == [] {
      assert r[1..] == lines;
      assert r[0][..0] == [];
    } else {
      var first := [c] + lines[0];
      assert r[1..] == lines[1..];
      assert Concat(lines) == lines[0] + Concat(lines[1..]);
      assert first[..|first| - 1] == [c] + lines[0][..|lines[0]| - 1];
      assert forall i | 1 <= i < |r| :: r[i] == lines[i];
    }
  }

  /** How `readlines()` treats one more character at the front. */
  lemma ReadLinesCons(c: char, s: string)
    ensures ReadLines([c] + s) == PrependChar(c, ReadLines(s))
  {
    assert ([c] + s)[1..] == s;
  }

  /** A character put in front of some lines only affects the first of them. */
  lemma PrependAppend(c: char, a: seq<string>, b: seq<string>)
    requires a != []
    ensures PrependChar(c, a + b) == PrependChar(c, a) + b
  {
    if c != '\n' {
      assert (a + b)[1..] == a[1..] + b;
    }
  }

  /** A text that ends with a newline is read as its own lines followed by those of what comes after. */
  lemma {:induction false} ReadLinesAppend(a: string, b: string)
    requires Terminated(a)
    ensures ReadLines(a + b) == ReadLines(a) + ReadLines(b)
  {
    if a == [] {
      assert a + b == b;
    } else {
      var c, a' := a[0], a[1..];
      assert a == [c] + a';
      assert a + b == [c] + (a' + b);
      ReadLinesCons(c, a');
      ReadLinesCons(c, a' + b);
      if a' == [] {
        assert a' + b == b;
      } else {
        ReadLinesAppend(a', b);
        ReadLinesNonEmpty(a');
        PrependAppend(c, ReadLines(a'), ReadLines(b));
      }
    }
  }

  lemma ReadLinesNonEmpty(s: string)
    requires s != []
    ensures ReadLines(s) != []
  {
  }

  /** A non-empty line whose only newline is its last character is read as that one line. */
  lemma {:induction false} ReadLinesOne(line: string)
    requires SingleLine(line)
    ensures ReadLines(line) == [line]
  {
    var c, rest := line[0], line[1..];
    assert line == [c] + rest;
    ReadLinesCons(c, rest);
    if |line| > 1 {
      assert rest[..|rest| - 1] == line[1..|line| - 1];
      ReadLinesOne(rest);
      assert c == line[..|line| - 1][0];
    } else {
      assert rest == [] && ReadLines(rest) == [];
      assert [c] == line;
    }
  }

  /** The line `save_target` writes holds exactly one newline, at its end. */
  lemma RenderedLineBreak(t: Target)
    requires Storable(t)
    ensures ReadLines(RenderTarget(t)) == [RenderTarget(t)] && SingleLine(RenderTarget(t))
    ensures Terminated(RenderTarget(t))
  {
    var joined := Join(PortTexts(t.ports), ',');
    var body := t.host + ":" + joined;
    RenderFormat(t);
    JoinedTextsShape(t.ports);
    var r := RenderTarget(t);
    assert r == body + "\n";
    assert r[..|r| - 1] == body;
    assert '\n' !in body by {
      assert HasNoWhitespace(body);
    }
    ReadLinesOne(r);
    assert SingleLine(r);
  }

  /**
   * Appending the line of a storable target to a file that ends with a
   * newline (or is empty) loads back the targets it held and then that
   * target, and leaves the file ending with a newline.
   */
  lemma SaveThenLoadFile(text: string, t: Target)
    requires Storable(t) && Terminated(text)
    ensures LoadFile(text + RenderTarget(t)) == LoadFile(text) + [t]
    ensures Terminated(text + RenderTarget(t))
  {
    RenderedLineBreak(t);
    ReadLinesAppend(text, RenderTarget(t));
    SaveThenLoad(ReadLines(text), t);
  }

  /** A line whose only newline is its last character. */
  predicate SingleLine(line: string) {
    line != [] && line[|line| - 1] == '\n' && '\n' !in line[..|line| - 1]
  }

  /**
   * Appending to a file whose last line `partial` has no newline runs the new
   * line into it: the two are read as a single line.
   */
  lemma AppendToUnterminated(a: string, partial: string, line: string)
    requires Terminated(a) && partial != [] && '\n' !in partial && SingleLine(line)
    ensures ReadLines(a + partial) == ReadLines(a) + [partial]
    ensures ReadLines(a + partial + line) == ReadLines(a) + [partial + line]
  {
    ReadLinesAppend(a, partial);
    ReadLinesPartial(partial);
    MergedLine(a, partial, line);
  }

  /** A partial line followed by a line is read as one line. */
  lemma MergedLine(a: string, partial: string, line: string)
    requires Terminated(a) && '\n' !in partial && SingleLine(line)
    ensures ReadLines(a + partial + line) == ReadLines(a) + [partial + line]
  {
    MergedSingleLine(partial, line);
    ReadLinesOne(partial + line);
    assert a + partial + line == a + (partial + line);
    ReadLinesAppend(a, partial + line);
  }

  /** A line with text in front of it that holds no newline is still one line. */
  lemma MergedSingleLine(partial: string, line: string)
    requires '\n' !in partial && SingleLine(line)
    ensures SingleLine(partial + line)
  {
    var merged := partial + line;
    assert merged[..|merged| - 1] == partial + line[..|line| - 1];
  }

  /** A text without any newline is read as one line. */
  lemma {:induction false} ReadLinesPartial(s: string)
    requires s != [] && '\n' !in s
    ensures ReadLines(s) == [s]
  {
    var c, rest := s[0], s[1..];
    assert s == [c] + rest;
    ReadLinesCons(c, rest);
    if |s| > 1 {
      ReadLinesPartial(rest);
    } else {
      assert rest == [] && ReadLines(rest) == [];
      assert [c] == s;
    }
  }

  /**
   * Saving a target after such a partial last line loads the lines before it
   * and then whatever the merged line parses to, in place of both.
   */
  lemma SaveAfterUnterminated(a: string, partial: string, t: Target)
    requires Storable(t) && Terminated(a) && partial != [] && '\n' !in partial
    ensures LoadFile(a + partial + RenderTarget(t))
         == LoadFile(a) + TargetsOf(ParseTarget(partial + RenderTarget(t)))
  {
    RenderedLineBreak(t);
    AppendToUnterminated(a, partial, RenderTarget(t));
    LoadSnoc(ReadLines(a), partial + RenderTarget(t));
  }
}
