/**
 * The element-building loop of `generate_pdf` in app.py: the text is split
 * on newlines, each line is stripped and classified, and the elements of
 * each line are appended in line order to a list that starts empty.
 */
module AppLayout {
  import opened PyStr
  import opened Flowables
  import opened MarkdownLine
  import opened AppInline

  /** What app.py appends for each class of line. */
  function KindElements(k: LineKind): seq<Element>
  {
    match k
    case Blank => [Spacer(1, 8)]
    case H1(t) => [Para(t, Title), Spacer(1, 12)]
    case H2(t) => [Para(t, Heading), Spacer(1, 6)]
    case H3(t) => [Para(t, SubHeading)]
    case Item(t) => [Para(Bullet + FormatMarkdownInline(t), Normal)]
    case BoldOnly(t) => [Para("<b>" + t + "</b>", Normal)]
    case Plain(line) => [Para(FormatMarkdownInline(line), Normal)]
  }

  /** The elements one line contributes. */
  function LineElements(raw: string): seq<Element>
  {
    KindElements(Classify(raw))
  }

  /** The elements of a sequence of lines, in order. */
  function Render(lines: seq<string>): seq<Element>
  {
    FlatMap(LineElements, lines)
  }

  /** The elements of a whole Markdown text. */
  function Document(markdownText: string): seq<Element>
  {
    Render(Split(markdownText, '\n'))
  }

  /** A line that is followed by an extra spacer: a `# ` title or a `## ` heading. */
  predicate AddsSpacer(raw: string) {
    Classify(raw).H1? || Classify(raw).H2?
  }

  function ExtraSpacers(lines: seq<string>): nat
  {
    if lines == [] then 0
    else ExtraSpacers(lines[..|lines| - 1]) + (if AddsSpacer(lines[|lines| - 1]) then 1 else 0)
  }

  /** The loop over the lines, appending each line's elements to a fresh list. */
  method BuildElements(markdownText: string) returns (elements: seq<Element>)
    ensures elements == Document(markdownText)
  {
    elements := [];
    var lines := Split(markdownText, '\n');
    var i := 0;
    while i < |lines|
      invariant i <= |lines|
      invariant elements == Render(lines[..i])
    {
      elements := AppendLine(elements, lines[i]);
      RenderStep(lines, i);
      i := i + 1;
    }
    assert lines[..|lines|] == lines;
  }

  /** One pass of the loop body: strip the line, test its prefixes, append its elements. */
  method AppendLine(elements: seq<Element>, raw: string) returns (result: seq<Element>)
    ensures result == elements + LineElements(raw)
  {
    ghost var kind := Classify(raw);
    assert LineElements(raw) == KindElements(kind);
    var added: seq<Element>;
    var line := Strip(raw);
    if line == [] {
      added := [Spacer(1, 8)];
    } else if StartsWith(line, "# ") {
      assert kind == H1(Strip(line[2..]));
      added := [Para(Strip(line[2..]), Title), Spacer(1, 12)];
    } else if StartsWith(line, "## ") {
      assert kind == H2(Strip(line[3..]));
      added := [Para(Strip(line[3..]), Heading), Spacer(1, 6)];
    } else if StartsWith(line, "### ") {
      assert kind == H3(Strip(line[4..]));
      added := [Para(Strip(line[4..]), SubHeading)];
    } else if StartsWith(line, "- ") || StartsWith(line, "* ") {
      assert kind == Item(Strip(line[2..]));
      var bullet := FormatMarkdownInline(Strip(line[2..]));
      added := [Para(Bullet + bullet, Normal)];
    } else if StartsWith(line, "**") && EndsWith(line, "**") {
      assert kind == BoldOnly(Strip(SliceInner(line, 2)));
      added := [Para("<b>" + Strip(SliceInner(line, 2)) + "</b>", Normal)];
    } else {
      assert kind == Plain(line);
      added := [Para(FormatMarkdownInline(line), Normal)];
    }
    assert added == KindElements(kind);
    result := elements + added;
  }

  lemma RenderStep(lines: seq<string>, i: nat)
    requires i < |lines|
    ensures Render(lines[..i + 1]) == Render(lines[..i]) + LineElements(lines[i])
  {
    FlatMapStep(LineElements, lines, i);
  }

  // ---------------------------------------------------------------------------
  // Counting and order

  /** A line gives one element, two for a title or heading. */
  lemma LineLength(raw: string)
    ensures |LineElements(raw)| == if AddsSpacer(raw) then 2 else 1
  {
  }

  lemma {:induction false} RenderLength(lines: seq<string>)
    ensures |Render(lines)| == |lines| + ExtraSpacers(lines)
  {
    if lines != [] {
      var n := |lines| - 1;
      RenderStep(lines, n);
      assert lines[..n + 1] == lines;
      RenderLength(lines[..n]);
      LineLength(lines[n]);
    }
  }

  /**
   * One element per line, one more after every title and heading line, and
   * no trailing spacer.
   */
  lemma DocumentLength(markdownText: string)
    ensures |Document(markdownText)| == Count(markdownText, '\n') + 1 + ExtraSpacers(Split(markdownText, '\n'))
  {
    RenderLength(Split(markdownText, '\n'));
  }

  lemma RenderConcat(a: seq<string>, b: seq<string>)
    ensures Render(a + b) == Render(a) + Render(b)
  {
    FlatMapConcat(LineElements, a, b);
  }

  /** The elements follow the order of the lines: the text before a newline comes first. */
  lemma DocumentConcat(x: string, y: string)
    ensures Document(x + "\n" + y) == Document(x) + Document(y)
  {
    SplitConcat(x, y, '\n');
    assert x + "\n" + y == x + ['\n'] + y;
    RenderConcat(Split(x, '\n'), Split(y, '\n'));
  }

  /** A text without a newline is one line. */
  lemma SingleLine(line: string)
    requires '\n' !in line
    ensures Document(line) == LineElements(line)
  {
    SplitNoSeparator(line, '\n');
    RenderStep([line], 0);
    assert [line][..1] == [line] && [line][..0] == [];
  }

  // ---------------------------------------------------------------------------
  // Line classes

  /** A blank line yields one small spacer and nothing else, and only a blank line does. */
  lemma BlankLine(raw: string)
    ensures LineElements(raw) == [Spacer(1, 8)] <==> AllSpace(raw)
  {
    BlankIff(raw);
  }

  /** Every paragraph has text, and a title, heading or sub-heading has no whitespace at its ends. */
  lemma ParaTextsNonEmpty(raw: string)
    ensures forall e :: e in LineElements(raw) && e.Para? ==> e.text != []
    ensures forall e :: e in LineElements(raw) && e.Para? && e.style != Normal ==> Trimmed(e.text)
  {
    TextsTrimmed(raw);
    if Classify(raw).Plain? {
      FormatGrows(Classify(raw).line);
    }
  }

  lemma {:induction false} RenderTextsNonEmpty(lines: seq<string>)
    ensures forall e :: e in Render(lines) && e.Para? ==> e.text != []
  {
    if lines != [] {
      var n := |lines| - 1;
      RenderStep(lines, n);
      assert lines[..n + 1] == lines;
      RenderTextsNonEmpty(lines[..n]);
      ParaTextsNonEmpty(lines[n]);
    }
  }

  /** No paragraph of a document is empty. */
  lemma DocumentTextsNonEmpty(markdownText: string)
    ensures forall e :: e in Document(markdownText) && e.Para? ==> e.text != []
  {
    RenderTextsNonEmpty(Split(markdownText, '\n'));
  }

  /** A `# ` line: its stripped text in the title style, then a 12-point spacer, counted as an extra spacer. */
  lemma TitleElements(pad: string, t: string)
    requires AllSpace(pad) && Trimmed(t)
    ensures LineElements("# " + pad + t) == [Para(t, Title), Spacer(1, 12)]
    ensures AddsSpacer("# " + pad + t)
  {
    TitleLine(pad, t);
  }

  /** A `## ` line: its stripped text in the heading style, then a 6-point spacer. */
  lemma HeadingElements(pad: string, t: string)
    requires AllSpace(pad) && Trimmed(t)
    ensures LineElements("## " + pad + t) == [Para(t, Heading), Spacer(1, 6)]
  {
    HeadingLine(pad, t);
  }

  /** A `### ` line: its stripped text in the sub-heading style, not bold-wrapped, and no spacer. */
  lemma SubHeadingElements(pad: string, t: string)
    requires AllSpace(pad) && Trimmed(t)
    ensures LineElements("### " + pad + t) == [Para(t, SubHeading)]
  {
    SubHeadingLine(pad, t);
  }

  /** A `- ` or `* ` item: a bullet and the inline-formatted stripped text. */
  lemma BulletElements(marker: string, pad: string, t: string)
    requires marker == "- " || marker == "* "
    requires AllSpace(pad) && Trimmed(t)
    ensures LineElements(marker + pad + t) == [Para(Bullet + FormatMarkdownInline(t), Normal)]
  {
    ItemLine(marker, pad, t);
  }

  /** A line that starts and ends with `**`: one bold paragraph of its stripped inside, not inline-formatted, and no spacer. */
  lemma BoldOnlyElements(pad: string, t: string, pad': string)
    requires AllSpace(pad) && AllSpace(pad') && (t == [] || Trimmed(t))
    ensures LineElements("**" + pad + t + pad' + "**") == [Para("<b>" + t + "</b>", Normal)]
    ensures !AddsSpacer("**" + pad + t + pad' + "**")
  {
    BoldOnlyLine(pad, t, pad');
  }

  /**
   * Two bold spans on one line make the whole line a bold line: the
   * markers between them stay as they are.
   */
  lemma TwoBoldSpansLine()
    ensures LineElements("**A** and **B**") == [Para("<b>A** and **B</b>", Normal)]
  {
    var t := "A** and **B";
    assert "**A** and **B**" == "**" + [] + t + [] + "**";
    assert "<b>A** and **B</b>" == "<b>" + t + "</b>";
    BoldOnlyLine([], t, []);
  }

  /** `### ` needs its space: without it the line is ordinary text. */
  lemma NoSpaceAfterHashes()
    ensures LineElements("###NoSpace") == [Para("###NoSpace", Normal)]
  {
    var line := "###NoSpace";
    assert Classify(line) == Plain(line) by { HashesWithoutSpace(); }
    assert DigitsIn(line, 0, |line|) == 0 by { NoDigits(line, 0); }
    UnformattedLine(line);
  }

  /** Any other line, indented or not, becomes the inline-formatted stripped line. */
  lemma PlainElements(raw: string)
    requires Classify(raw).Plain?
    ensures LineElements(raw) == [Para(FormatMarkdownInline(Strip(raw)), Normal)]
  {
    TextsTrimmed(raw);
  }

  /** An already-stripped ordinary line with nothing the inline passes act on becomes one paragraph of itself. */
  lemma UnformattedLine(line: string)
    requires Classify(line) == Plain(line)
    requires '*' !in line && '@' !in line && DigitsIn(line, 0, |line|) < 4
    ensures LineElements(line) == [Para(line, Normal)]
  {
    PlainKind(line);
    PlainLineUnchanged(line);
  }

  lemma PlainKind(line: string)
    requires Classify(line) == Plain(line)
    ensures LineElements(line) == [Para(FormatMarkdownInline(line), Normal)]
  {
  }

  /** A short resume: a title line, a blank line and one list item. */
  lemma ResumeShape(name: string, item: string)
    requires Trimmed(name) && Trimmed(item) && '\n' !in name && '\n' !in item
    ensures Document("# " + name + "\n\n- " + item) ==
      [Para(name, Title), Spacer(1, 12), Spacer(1, 8), Para(Bullet + FormatMarkdownInline(item), Normal)]
  {
    var l1, l3 := "# " + name, "- " + item;
    assert Document(l1) == [Para(name, Title), Spacer(1, 12)] by {
      SingleLine(l1);
      assert l1 == "# " + [] + name;
      TitleElements([], name);
    }
    assert Document("") == [Spacer(1, 8)] by {
      SingleLine("");
      BlankLine("");
    }
    assert Document(l3) == [Para(Bullet + FormatMarkdownInline(item), Normal)] by {
      SingleLine(l3);
      assert l3 == "- " + [] + item;
      BulletElements("- ", [], item);
    }
    assert Document(l1 + "\n" + ("" + "\n" + l3)) == Document(l1) + (Document("") + Document(l3)) by {
      DocumentConcat(l1, "" + "\n" + l3);
      DocumentConcat("", l3);
    }
    ResumeText(name, item);
  }

  lemma ResumeText(name: string, item: string)
    ensures "# " + name + "\n\n- " + item == ("# " + name) + "\n" + ("" + "\n" + ("- " + item))
  {
  }
}
