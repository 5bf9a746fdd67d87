/**
 * `ResumeOptimizer._parse_markdown_to_pdf` of agent.py: the same line
 * classification as app.py, but with its own elements per class, appended
 * to a list the caller owns, and one closing spacer after the last line.
 */
module AgentLayout {
  import opened PyStr
  import opened Flowables
  import opened MarkdownLine
  import opened AgentInline

  /** The caller's list of flowables, which the parser appends to in place. */
  class ElementList {
    var items: seq<Element>

    constructor ()
      ensures items == []
    {
      items := [];
    }

    /** `list.append(e)` */
    method Append(e: Element)
      modifies this
      ensures items == old(items) + [e]
    {
      items := items + [e];
    }
  }

  /** What agent.py appends for each class of line. */
  function KindElements(k: LineKind): seq<Element>
  {
    match k
    case Blank => [Spacer(1, 12)]
    case H1(t) => [Para(t, Title), Spacer(1, 12)]
    case H2(t) => [Para(t, Heading)]
    case H3(t) => [Para("<b>" + t + "</b>", Normal)]
    case Item(t) => [Para(Bullet + t, Normal)]
    case BoldOnly(t) => [Para("<b>" + t + "</b>", Normal)]
    case Plain(line) => if line != [] then [Para(FormatMarkdownInline(line), Normal)] else []
  }

  function LineElements(raw: string): seq<Element>
  {
    KindElements(Classify(raw))
  }

  /** Everything one call appends: the lines' elements in order, then a 12-point spacer. */
  function Appended(markdownText: string): seq<Element>
  {
    FlatMap(LineElements, Split(markdownText, '\n')) + [Spacer(1, 12)]
  }

  /** The parser: it only appends to `elements`, and appends `Appended(markdownText)`. */
  method ParseMarkdownToPdf(markdownText: string, elements: ElementList)
    modifies elements
    ensures elements.items == old(elements.items) + Appended(markdownText)
  {
    var lines := Split(markdownText, '\n');
    var i := 0;
    while i < |lines|
      invariant i <= |lines|
      invariant elements.items == old(elements.items) + FlatMap(LineElements, lines[..i])
    {
      ghost var done := FlatMap(LineElements, lines[..i]);
      AppendLine(elements, lines[i]);
      FlatMapStep(LineElements, lines, i);
      AppendAssoc(old(elements.items), done, LineElements(lines[i]));
      i := i + 1;
    }
    assert lines[..|lines|] == lines;
    elements.Append(Spacer(1, 12));
  }

  /** One pass of the loop body: strip the line, test its prefixes, append its elements. */
  method AppendLine(elements: ElementList, raw: string)
    modifies elements
    ensures elements.items == old(elements.items) + LineElements(raw)
  {
    ghost var kind := Classify(raw);
    assert LineElements(raw) == KindElements(kind);
    var line := Strip(raw);
    if line == [] {
      assert LineElements(raw) == [Spacer(1, 12)];
      elements.Append(Spacer(1, 12));
    } else if StartsWith(line, "# ") {
      assert kind == H1(Strip(line[2..]));
      var titleText := Strip(line[2..]);
      assert LineElements(raw) == [Para(titleText, Title), Spacer(1, 12)];
      elements.Append(Para(titleText, Title));
      elements.Append(Spacer(1, 12));
    } else if StartsWith(line, "## ") {
      assert kind == H2(Strip(line[3..]));
      var headerText := Strip(line[3..]);
      assert LineElements(raw) == [Para(headerText, Heading)];
      elements.Append(Para(headerText, Heading));
    } else if StartsWith(line, "### ") {
      assert kind == H3(Strip(line[4..]));
      var subheaderText := Strip(line[4..]);
      assert LineElements(raw) == [Para("<b>" + subheaderText + "</b>", Normal)];
      elements.Append(Para("<b>" + subheaderText + "</b>", Normal));
    } else if StartsWith(line, "- ") || StartsWith(line, "* ") {
      assert kind == Item(Strip(line[2..]));
      var bulletText := Strip(line[2..]);
      assert LineElements(raw) == [Para(Bullet + bulletText, Normal)];
      elements.Append(Para(Bullet + bulletText, Normal));
    } else if StartsWith(line, "**") && EndsWith(line, "**") {
      assert kind == BoldOnly(Strip(SliceInner(line, 2)));
      var boldText := Strip(SliceInner(line, 2));
      assert LineElements(raw) == [Para("<b>" + boldText + "</b>", Normal)];
      elements.Append(Para("<b>" + boldText + "</b>", Normal));
    } else {
      assert kind == Plain(line);
      if line != [] {
        var formattedLine := FormatMarkdownInline(line);
        elements.Append(Para(formattedLine, Normal));
      }
    }
  }

  // ---------------------------------------------------------------------------
  // Properties

  function TitleLines(lines: seq<string>): nat
  {
    if lines == [] then 0
    else TitleLines(lines[..|lines| - 1]) + (if Classify(lines[|lines| - 1]).H1? then 1 else 0)
  }

  /** A line gives one element, two for a `# ` title. */
  lemma LineLength(raw: string)
    ensures |LineElements(raw)| == if Classify(raw).H1? then 2 else 1
  {
    TextsTrimmed(raw);
  }

  lemma {:induction false} LinesLength(lines: seq<string>)
    ensures |FlatMap(LineElements, lines)| == |lines| + TitleLines(lines)
  {
    if lines != [] {
      var n := |lines| - 1;
      FlatMapStep(LineElements, lines, n);
      assert lines[..n + 1] == lines;
      LinesLength(lines[..n]);
      LineLength(lines[n]);
    }
  }

  /**
   * One element per line, one more per title line, and the closing spacer,
   * which is always the last element appended.
   */
  lemma AppendedLength(markdownText: string)
    ensures |Appended(markdownText)| == Count(markdownText, '\n') + 1 + TitleLines(Split(markdownText, '\n')) + 1
    ensures Appended(markdownText)[|Appended(markdownText)| - 1] == Spacer(1, 12)
  {
    LinesLength(Split(markdownText, '\n'));
  }

  /** An empty document appends a spacer for its one blank line and the closing spacer. */
  lemma EmptyDocument()
    ensures Appended("") == [Spacer(1, 12), Spacer(1, 12)]
  {
    assert Split("", '\n') == [""];
    FlatMapStep(LineElements, [""], 0);
    assert [""][..1] == [""] && [""][..0] == [];
    BlankIff("");
  }

  /** A blank line yields one 12-point spacer and nothing else, and only a blank line does. */
  lemma BlankLine(raw: string)
    ensures LineElements(raw) == [Spacer(1, 12)] <==> AllSpace(raw)
  {
    BlankIff(raw);
    TextsTrimmed(raw);
  }

  /** A `# ` line: its stripped text in the title style, then a 12-point spacer. */
  lemma TitleElements(pad: string, t: string)
    requires AllSpace(pad) && Trimmed(t)
    ensures LineElements("# " + pad + t) == [Para(t, Title), Spacer(1, 12)]
  {
    TitleLine(pad, t);
  }

  /** A `## ` line: its stripped text in the heading style, with no spacer after it. */
  lemma HeadingElements(pad: string, t: string)
    requires AllSpace(pad) && Trimmed(t)
    ensures LineElements("## " + pad + t) == [Para(t, Heading)]
  {
    HeadingLine(pad, t);
  }

  /** A `### ` line: its stripped text bold-wrapped in the normal style. */
  lemma SubHeadingElements(pad: string, t: string)
    requires AllSpace(pad) && Trimmed(t)
    ensures LineElements("### " + pad + t) == [Para("<b>" + t + "</b>", Normal)]
  {
    SubHeadingLine(pad, t);
  }

  /** A `- ` or `* ` item: a bullet and the stripped text as written, with no inline formatting. */
  lemma BulletElements(marker: string, pad: string, t: string)
    requires marker == "- " || marker == "* "
    requires AllSpace(pad) && Trimmed(t)
    ensures LineElements(marker + pad + t) == [Para(Bullet + t, Normal)]
  {
    ItemLine(marker, pad, t);
  }

  /** A line that starts and ends with `**`: one bold paragraph of its stripped inside. */
  lemma BoldOnlyElements(pad: string, t: string, pad': string)
    requires AllSpace(pad) && AllSpace(pad') && (t == [] || Trimmed(t))
    ensures LineElements("**" + pad + t + pad' + "**") == [Para("<b>" + t + "</b>", Normal)]
  {
    BoldOnlyLine(pad, t, pad');
  }

  /** There is no length check on bold lines: `**` and `***` give an empty bold paragraph. */
  lemma ShortBoldElements(line: string)
    requires line == "**" || line == "***"
    ensures LineElements(line) == [Para("<b></b>", Normal)]
  {
    assert "<b>" + [] + "</b>" == "<b></b>";
    ShortBoldLines();
    assert Classify(line) == BoldOnly([]);
  }

  lemma JobTitleExample()
    ensures LineElements("**Senior Engineer**") == [Para("<b>Senior Engineer</b>", Normal)]
  {
    var t := "Senior Engineer";
    assert "**Senior Engineer**" == "**" + [] + t + [] + "**";
    assert "<b>Senior Engineer</b>" == "<b>" + t + "</b>";
    BoldOnlyElements([], t, []);
  }

  /** A line matching no prefix is inline-formatted in the normal style. */
  lemma PlainElements(raw: string)
    requires Classify(raw).Plain?
    ensures LineElements(raw) == [Para(AppInline.FormatMarkdownInline(Strip(raw)), Normal)]
  {
    TextsTrimmed(raw);
    SameAsApp(Strip(raw));
  }

  /** A non-empty ordinary line with nothing the inline passes act on becomes one paragraph of itself. */
  lemma UnformattedLine(line: string)
    requires line != [] && Classify(line) == Plain(line)
    requires '*' !in line && '@' !in line && DigitsIn(line, 0, |line|) < 4
    ensures LineElements(line) == [Para(line, Normal)]
  {
    PlainKind(line);
    AppInline.PlainLineUnchanged(line);
    SameAsApp(line);
  }

  lemma PlainKind(line: string)
    requires line != [] && Classify(line) == Plain(line)
    ensures LineElements(line) == [Para(FormatMarkdownInline(line), Normal)]
  {
  }

  /** Without the space after the hashes a line is ordinary text. */
  lemma NoSpaceAfterHashes()
    ensures LineElements("###NoSpace") == [Para("###NoSpace", Normal)]
  {
    var line := "###NoSpace";
    assert Classify(line) == Plain(line) by { HashesWithoutSpace(); }
    assert DigitsIn(line, 0, |line|) == 0 by { NoDigits(line, 0); }
    UnformattedLine(line);
  }

  lemma HashThenLetter()
    ensures LineElements("#x") == [Para("#x", Normal)]
  {
    var line := "#x";
    assert Classify(line) == Plain(line) by { HashWithoutSpace(); }
    assert DigitsIn(line, 0, |line|) == 0 by { NoDigits(line, 0); }
    UnformattedLine(line);
  }
}
