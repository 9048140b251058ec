/**
 * What `load_targets` promises about the lines of the file, and how it meets
 * `save_target`: a line appended for a storable target loads as that target,
 * after the targets of the lines already there.
 */
module LoadProperties {
  import opened Wrappers
  import opened Text
  import opened TargetStore
  import opened RenderProperties

  /** A line added at the end adds its target, if any, at the end. */
  lemma LoadSnoc(lines: seq<string>, line: string)
    ensures LoadTargets(lines + [line]) == LoadTargets(lines) + TargetsOf(ParseTarget(line))
  {
    assert (lines + [line])[..|lines|] == lines;
  }

  /** Loading two runs of lines is loading each and concatenating, so file order is kept. */
  lemma {:induction false} LoadAppend(a: seq<string>, b: seq<string>)
    ensures LoadTargets(a + b) == LoadTargets(a) + LoadTargets(b)
  {
    if b == [] {
      assert a + b == a;
    } else {
      var b', x := b[..|b| - 1], b[|b| - 1];
      assert a + b == (a + b') + [x];
      assert b == b' + [x];
      LoadSnoc(a + b', x);
      LoadSnoc(b', x);
      LoadAppend(a, b');
    }
  }

  /**
   * Every line is handled on its own: the target of a line, if any, sits
   * between the targets of the lines before and after it.
   */
  lemma LoadAround(before: seq<string>, line: string, after: seq<string>)
    ensures LoadTargets(before + [line] + after)
         == LoadTargets(before) + TargetsOf(ParseTarget(line)) + LoadTargets(after)
  {
    LoadAppend(before + [line], after);
    LoadSnoc(before, line);
  }

  /** A line that parses to nothing (blank, comment, malformed) contributes nothing. */
  lemma LoadDropsLine(before: seq<string>, line: string, after: seq<string>)
    requires ParseTarget(line).target.None?
    ensures LoadTargets(before + [line] + after) == LoadTargets(before + after)
  {
    LoadAround(before, line, after);
    LoadAppend(before, after);
  }

  /** At most one target per line. */
  lemma {:induction false} LoadLength(lines: seq<string>)
    ensures |LoadTargets(lines)| <= |lines|
  {
    if lines != [] {
      var init, last := lines[..|lines| - 1], lines[|lines| - 1];
      assert lines == init + [last];
      LoadSnoc(init, last);
      LoadLength(init);
    }
  }

  /** A target is loaded exactly when some line parses to it. */
  lemma {:induction false} LoadMembership(lines: seq<string>, t: Target)
    ensures t in LoadTargets(lines) <==>
            exists i :: 0 <= i < |lines| && ParseTarget(lines[i]).target == Some(t)
  {
    if lines != [] {
      var init, last := lines[..|lines| - 1], lines[|lines| - 1];
      assert lines == init + [last];
      LoadSnoc(init, last);
      LoadMembership(init, t);
      assert t in TargetsOf(ParseTarget(last)) <==> ParseTarget(last).target == Some(t);
      if exists i :: 0 <= i < |init| && ParseTarget(init[i]).target == Some(t) {
        var i :| 0 <= i < |init| && ParseTarget(init[i]).target == Some(t);
        assert lines[i] == init[i];
      }
      if exists i :: 0 <= i < |lines| && ParseTarget(lines[i]).target == Some(t) {
        var i :| 0 <= i < |lines| && ParseTarget(lines[i]).target == Some(t);
        if i < |init| {
          assert init[i] == lines[i];
        }
      }
    }
  }

  /**
   * Saving appends one line; loading the file afterwards gives the targets it
   * gave before and then the saved target, the earlier lines being untouched.
   */
  lemma SaveThenLoad(lines: seq<string>, t: Target)
    requires Storable(t)
    ensures LoadTargets(lines + [RenderTarget(t)]) == LoadTargets(lines) + [t]
  {
    RoundTrip(t);
    assert (lines + [RenderTarget(t)])[..|lines|] == lines;
  }

  /** Two targets saved in succession load back in the order they were saved. */
  lemma SaveTwiceThenLoad(lines: seq<string>, t1: Target, t2: Target)
    requires Storable(t1) && Storable(t2)
    ensures LoadTargets(lines + [RenderTarget(t1)] + [RenderTarget(t2)]) == LoadTargets(lines) + [t1, t2]
  {
    SaveThenLoad(lines, t1);
    SaveThenLoad(lines + [RenderTarget(t1)], t2);
  }
}
