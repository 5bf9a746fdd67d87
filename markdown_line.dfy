/**
 * The classification of one Markdown line that both renderers share: the
 * line is stripped, and the first matching test among blank, `# `, `## `,
 * `### `, `- ` or `* `, and "starts and ends with `**`" decides its class.
 * app.py and agent.py each carry their own copy of this test chain; the two
 * copies test the same prefixes in the same order and take the same piece
 * of the line as the class's text. They differ only in the elements each
 * class produces (see AppLayout and AgentLayout).
 */
module MarkdownLine {
  import opened PyStr

  /** The classes of a line, each with the text the renderer keeps of it. */
  datatype LineKind =
    | Blank
    | H1(text: string)         // `# x`: x stripped
    | H2(text: string)         // `## x`
    | H3(text: string)         // `### x`
    | Item(text: string)       // `- x` or `* x`
    | BoldOnly(text: string)   // `**x**`: the slice `line[2:-2]`, stripped
    | Plain(line: string)      // anything else: the stripped line

  function Classify(raw: string): LineKind
  {
    var line := Strip(raw);
    if line == [] then Blank
    else if StartsWith(line, "# ") then H1(Strip(line[2..]))
    else if StartsWith(line, "## ") then H2(Strip(line[3..]))
    else if StartsWith(line, "### ") then H3(Strip(line[4..]))
    else if StartsWith(line, "- ") || StartsWith(line, "* ") then Item(Strip(line[2..]))
    else if StartsWith(line, "**") && EndsWith(line, "**") then BoldOnly(Strip(SliceInner(line, 2)))
    else Plain(line)
  }

  /** A line is blank exactly when it is all whitespace. */
  lemma BlankIff(raw: string)
    ensures Classify(raw) == Blank <==> AllSpace(raw)
  {
  }

  /** Whitespace around a line does not change its class. */
  lemma IndentIrrelevant(a: string, raw: string, b: string)
    requires AllSpace(a) && AllSpace(b)
    ensures Classify(a + raw + b) == Classify(raw)
  {
    StripPadding(a, raw, b);
  }

  /**
   * Because the line is stripped before the prefix tests, the text of a
   * heading or list item is never empty and has no whitespace at its ends,
   * and the text of an ordinary line is the whole non-blank stripped line.
   */
  lemma TextsTrimmed(raw: string)
    ensures Classify(raw).H1? || Classify(raw).H2? || Classify(raw).H3? || Classify(raw).Item? ==> Trimmed(Classify(raw).text)
    ensures Classify(raw).BoldOnly? ==> Classify(raw).text == [] || Trimmed(Classify(raw).text)
    ensures Classify(raw).Plain? ==> Trimmed(Classify(raw).line) && Classify(raw).line == Strip(raw)
  {
    var line := Strip(raw);
    StripResult(raw);
    if line != [] {
      if StartsWith(line, "# ") {
        assert line[..2][1] == line[1];
        StripTail(line, 2);
      } else if StartsWith(line, "## ") {
        assert line[..3][2] == line[2];
        StripTail(line, 3);
      } else if StartsWith(line, "### ") {
        assert line[..4][3] == line[3];
        StripTail(line, 4);
      } else if StartsWith(line, "- ") || StartsWith(line, "* ") {
        assert line[..2][1] == line[1];
        StripTail(line, 2);
      } else if StartsWith(line, "**") && EndsWith(line, "**") {
        StripResult(SliceInner(line, 2));
      }
    }
  }

  /** `strip()` gives the empty text or a trimmed one. */
  lemma StripResult(s: string)
    ensures Strip(s) == [] || Trimmed(Strip(s))
  {
    StripSpec(s);
  }

  /** What follows a prefix ending in a blank of a trimmed line strips to a trimmed text. */
  lemma StripTail(line: string, k: nat)
    requires Trimmed(line) && 0 < k <= |line| && line[k - 1] == ' '
    ensures Trimmed(Strip(line[k..]))
  {
    var t := line[k..];
    assert t[|t| - 1] == line[|line| - 1];
    StripSpec(t);
  }

  /** `# ` then the title, after any amount of whitespace. */
  lemma TitleLine(pad: string, t: string)
    requires AllSpace(pad) && Trimmed(t)
    ensures Classify("# " + pad + t) == H1(t)
  {
    var line := "# " + pad + t;
    assert line[|line| - 1] == t[|t| - 1];
    StripTrimmed(line);
    assert line[..2] == "# ";
    assert line[2..] == pad + t + [];
    StripPadded(pad, t, []);
  }

  lemma HeadingLine(pad: string, t: string)
    requires AllSpace(pad) && Trimmed(t)
    ensures Classify("## " + pad + t) == H2(t)
  {
    var line := "## " + pad + t;
    assert line[|line| - 1] == t[|t| - 1];
    StripTrimmed(line);
    DiffersAt(line, "# ", 1);
    assert line[..3] == "## ";
    assert line[3..] == pad + t + [];
    StripPadded(pad, t, []);
  }

  lemma SubHeadingLine(pad: string, t: string)
    requires AllSpace(pad) && Trimmed(t)
    ensures Classify("### " + pad + t) == H3(t)
  {
    var line := "### " + pad + t;
    assert line[|line| - 1] == t[|t| - 1];
    StripTrimmed(line);
    DiffersAt(line, "# ", 1);
    DiffersAt(line, "## ", 2);
    assert line[..4] == "### ";
    assert line[4..] == pad + t + [];
    StripPadded(pad, t, []);
  }

  /** A list item marked `- ` or `* `. */
  lemma ItemLine(marker: string, pad: string, t: string)
    requires marker == "- " || marker == "* "
    requires AllSpace(pad) && Trimmed(t)
    ensures Classify(marker + pad + t) == Item(t)
  {
    var line := marker + pad + t;
    assert line[|line| - 1] == t[|t| - 1];
    StripTrimmed(line);
    DiffersAt(line, "# ", 0);
    DiffersAt(line, "## ", 0);
    DiffersAt(line, "### ", 0);
    assert line[..2] == marker;
    assert line[2..] == pad + t + [];
    StripPadded(pad, t, []);
  }

  lemma DoubleStarPrefix(line: string)
    requires |line| >= 2 && line[0] == '*' && line[1] == '*'
    ensures !StartsWith(line, "# ") && !StartsWith(line, "## ") && !StartsWith(line, "### ")
    ensures !StartsWith(line, "- ") && !StartsWith(line, "* ") && StartsWith(line, "**")
  {
    DiffersAt(line, "# ", 0);
    DiffersAt(line, "## ", 0);
    DiffersAt(line, "### ", 0);
    DiffersAt(line, "- ", 0);
    DiffersAt(line, "* ", 1);
    assert line[..2] == "**";
  }

  /**
   * A line that starts and ends with `**` is one bold line whatever lies
   * between, even further `**` pairs; its text is the inside, stripped.
   */
  lemma BoldOnlyLine(pad: string, t: string, pad': string)
    requires AllSpace(pad) && AllSpace(pad') && (t == [] || Trimmed(t))
    ensures Classify("**" + pad + t + pad' + "**") == BoldOnly(t)
  {
    var inner := pad + t + pad';
    var line := "**" + inner + "**";
    assert line == "**" + pad + t + pad' + "**";
    assert |line| == |inner| + 4;
    assert line[0] == '*' && line[1] == '*' && line[|line| - 1] == '*';
    assert line[|line| - 2..] == "**";
    assert line[2..|line| - 2] == inner;
    BoldClass(line);
    StripPadded(pad, t, pad');
  }

  /** Any stripped line starting `**` and ending `**` is a bold line. */
  lemma BoldClass(line: string)
    requires |line| >= 2 && line[0] == '*' && line[1] == '*' && EndsWith(line, "**")
    ensures Classify(line) == BoldOnly(Strip(SliceInner(line, 2)))
  {
    assert Trimmed(line) by { assert line[|line| - 2..][1] == line[|line| - 1]; }
    StripTrimmed(line);
    DoubleStarPrefix(line);
  }

  /** There is no length check: `**` and `***` are bold lines with nothing inside. */
  lemma ShortBoldLines()
    ensures Classify("**") == BoldOnly([])
    ensures Classify("***") == BoldOnly([])
  {
    StripTrimmed("**");
    StripTrimmed("***");
    DoubleStarPrefix("**");
    DoubleStarPrefix("***");
  }

  /** Without the space after the hashes a line is ordinary text. */
  lemma HashesWithoutSpace()
    ensures Classify("###NoSpace") == Plain("###NoSpace")
  {
    var line := "###NoSpace";
    StripTrimmed(line);
    DiffersAt(line, "# ", 1);
    DiffersAt(line, "## ", 2);
    DiffersAt(line, "### ", 3);
    DiffersAt(line, "- ", 0);
    DiffersAt(line, "* ", 0);
    DiffersAt(line, "**", 0);
  }

  lemma HashWithoutSpace()
    ensures Classify("#x") == Plain("#x")
  {
    var line := "#x";
    StripTrimmed(line);
    DiffersAt(line, "# ", 1);
    DiffersAt(line, "## ", 1);
    DiffersAt(line, "### ", 1);
    DiffersAt(line, "- ", 0);
    DiffersAt(line, "* ", 0);
    DiffersAt(line, "**", 0);
  }
}
