# Resume optimizer: Markdown-to-PDF layout, modelled in Dafny

The resume optimizer asks a language model for a tailored resume in
Markdown and turns that Markdown into a PDF. This project models the
deterministic core of that conversion, which exists in two independent
copies.

**app.py**
- `format_markdown_inline` rewrites inline Markdown into reportlab
  mini-markup with four `re.sub` passes, always in this order:
  1. bold `**…**` becomes `<b>…</b>`;
  2. italic `*…*` becomes `<i>…</i>`;
  3. e-mail addresses are wrapped in `<u>…</u>`;
  4. phone-like digit groups are wrapped in `<u>…</u>`.
- The loop in `generate_pdf` splits the text into lines and strips each one.
  It classifies the line by its first matching prefix and appends spacers
  and paragraphs to a fresh list.
- The caller splits the model's answer at the first
  `## Sugerencias adicionales` into a resume part and a suggestions part.

**agent.py**
- `ResumeOptimizer._parse_markdown_to_pdf` appends to a list owned by its
  caller. It uses the same classification as app.py but produces different
  elements, and it ends with one closing spacer.
- `_format_markdown_inline` runs the same four passes as app.py.

Modules:

- `PyStr` covers the Python string built-ins the code uses:
  - `isspace` and `strip()`;
  - `split('\n')` and its inverse `'\n'.join`;
  - `startswith`, `endswith`, `find`;
  - the slice `s[k:-k]`;
  - a count of digits.
- `Regex` models the part of `re.sub` these patterns need. A pattern has a
  literal lead, a captured group of quantified character classes and a
  literal trail. Greedy items give characters back one at a time on
  backtracking; lazy items take one more at a time. The scan is leftmost
  and non-overlapping, and resumes after each match.
- `Flowables` holds the layout elements: `Spacer(width, height)` and
  `Para(text, style)`, which stands for reportlab's `Paragraph`. Each paragraph style keeps only its role:
  title, heading, sub-heading or normal.
- `MarkdownLine` is the line classification. Both files carry a copy of it,
  and the two copies test the same prefixes in the same order.
- `AppInline` and `AppLayout` model app.py: the formatter and the
  `generate_pdf` loop. `AppLayout.BuildElements` is the loop itself and is
  proved equal to the specification function `Document`.
- `AppResult` models the split of the answer into resume and suggestions.
- `AgentInline` and `AgentLayout` model agent.py. The caller's list is the
  class `ElementList`. `AgentLayout.ParseMarkdownToPdf` changes that object
  in place and is proved to append exactly `Appended(markdownText)`.

Where app.py and agent.py differ, each module follows its own file:

| | app.py | agent.py |
|---|---|---|
| `### x` | plain | wrapped in `<b>` |
| bullets | inline-formatted | kept verbatim |
| `## x` | followed by a 6-point spacer | no spacer |
| blank lines | 8-point spacer | 12-point spacer |
| end of document | nothing appended | 12-point spacer |

Neither file checks the length of a bold-only line, so `**` alone becomes
an empty bold paragraph. The model follows the code here as well.

## Model

| member | source | states |
|---|---|---|
| AppInline.FormatMarkdownInline | app.py:54-59 | `format_markdown_inline`: the four substitutions folded over the text in source order; its contracts are the lemmas below |
| AppInline.FormatPasses | app.py:54-59 | formatting is exactly the bold, italic, e-mail and phone substitutions, applied in that order |
| AppInline.FormatLength | app.py:55-58 | the output is the input's length plus 3 per bold match, 5 per italic match and 7 per e-mail or phone match, each counted on the text that pass sees |
| AppInline.FormatGrows | app.py:54-59 | formatting never shortens a line |
| AppInline.EachPassOnlyInsertsTags | app.py:55-58 | on text without `<`, undoing each pass restores that pass's input: `<b>`/`</b>` back to `**`, `<i>`/`</i>` back to `*`, `<u>`/`</u>` deleted |
| AppInline.BoldMatchNearest | app.py:55 | the bold pattern matches at `i` and ends at `g` exactly when `**` is at `i` and the nearest later `**` on the same line is at `g` |
| AppInline.ItalicMatchNearest | app.py:56 | the italic pattern matches at `i` and ends at `g` exactly when `*` is at `i` and the nearest later `*` on the same line is at `g` |
| AppInline.NoStarNoEmphasis | app.py:55-56 | without `*`, neither emphasis pattern matches anywhere |
| AppInline.EmailMatchWholeRun | app.py:57 | the e-mail pattern matches at `i` exactly when the whitespace-free run from `i` reads `x@y.z` with `x`, `y` and `z` non-empty; the match is then the whole run |
| AppInline.AtInsideShaped | app.py:57 | the matcher-level condition for an e-mail run is equivalent to the plain description of an address |
| AppInline.PhoneNeedsFourDigits | app.py:58 | every phone match covers at least four digits |
| AppInline.PhoneMatchStart | app.py:58 | a phone match starts with `+` or a digit |
| AppInline.NoStarUnchanged | app.py:55-56 | text without `*` passes the bold and italic passes unchanged |
| AppInline.NoAtUnchanged | app.py:57 | text without `@` passes the e-mail pass unchanged |
| AppInline.FewDigitsUnchanged | app.py:58 | text with fewer than four digits passes the phone pass unchanged |
| AppInline.PlainLineUnchanged | app.py:54-59 | a line with no `*`, no `@` and fewer than four digits is returned unchanged |
| AppInline.BoldSkipsItalic | app.py:55 | a single-starred word `*b*` is left alone by the bold pass |
| AppInline.FormatBoldWord | app.py:54-59 | `**w**` becomes `<b>w</b>` for any star-free single-line `w` the later passes leave alone |
| AppInline.FormatItalicWord | app.py:54-59 | `*w*` becomes `<i>w</i>` for any star-free single-line `w` the later passes leave alone, the empty `w` included |
| AppInline.FormatBoldThenItalic | app.py:54-59 | a bold span followed by an italic span comes out as `<b>…</b>` then `<i>…</i>`, because bold runs first |
| AppInline.FormatEmailAtEnd | app.py:54-59 | an address at the end of a line, after whitespace, is underlined whole |
| AppInline.PhoneDashedMatch | app.py:58 | `+d1-d2-d3-d4`, with groups of at most 3, 4, 4 and 9 digits, is one whole phone match |
| AppInline.FormatDashedPhone | app.py:54-59 | such a number at the end of otherwise digit-free text is underlined whole |
| AppInline.PhoneTakesYearRange | app.py:58 | a year range `yyyy-yyyy` is one whole phone match |
| AppInline.FormatYearRange | app.py:54-59 | a year range on its own is underlined |
| AppInline.FormatWholePhone | app.py:54-59 | a line that is one whole phone match, with no `*` or `@`, is underlined whole |
| AppInline.BoldExample | app.py:55 | `**bold**` becomes `<b>bold</b>` |
| AppInline.ItalicExample | app.py:56 | `*italic*` becomes `<i>italic</i>` |
| AppInline.BoldAndItalicExample | app.py:55-56 | `**a** and *b*` becomes `<b>a</b> and <i>b</i>` |
| AppInline.EmailExample | app.py:57 | `contact me at a@b.com` has the address underlined |
| AppInline.PhoneExample | app.py:58 | `call +1-555-123-4567` has the number underlined |
| AppInline.DoubleStarExample | app.py:55-56 | `**` alone has no bold span and becomes the empty italic span `<i></i>` |
| AppInline.YearRangeExample | app.py:58 | `2019-2023` is underlined as if it were a phone number |
| AgentInline.FormatMarkdownInline | agent.py:159-169 | `_format_markdown_inline`: agent.py's own four substitutions in its order; `SameAsApp` ties it to app.py's |
| AgentInline.SameRules | agent.py:162-167 | agent.py's four patterns and replacements are app.py's |
| AgentInline.SameAsApp | agent.py:159-169 | `_format_markdown_inline` and `format_markdown_inline` agree on every input |
| Regex.MatchSeq | app.py:55-58 | the backtracking matcher for a sequence of items then a trail; a result is at least the items' minimum length past the start and is followed by the trail |
| Regex.MatchAt | app.py:55-58 | a match of the whole pattern at a position: the lead there, the items, then the trail at the returned end |
| Regex.SubFrom | app.py:55-58 | the `re.sub` scan from a position: at a match, the open tag, the group and the close tag, then resume after the match; otherwise copy one character |
| Regex.Sub | app.py:55-58 | `re.sub(pattern, r'<tag>\1</tag>', s)`: the scan from the start |
| Regex.MatchSeqSound | app.py:55-58 | whatever the backtracking matcher returns spans the pattern's items, each item taking between its minimum and what is available |
| Regex.MatchSeqComplete | app.py:55-58 | if some choice of item lengths spans the items and the trail follows, the matcher finds a match |
| Regex.LazyAnyMatch | app.py:55-56 | `.*?` followed by a trail ends at the first position on the line where the trail occurs |
| Regex.SubSkip | app.py:55-58 | positions where nothing matches are copied through the scan unchanged |
| Regex.SubUnchanged | app.py:55-58 | `re.sub` returns its input when the pattern matches nowhere |
| Regex.SubUnchangedIff | app.py:55-58 | for a pattern whose replacement is longer than its match, the input is returned unchanged exactly when the pattern matches nowhere |
| Regex.NoMatchCount | app.py:55-58 | the scan makes no replacement exactly when the pattern matches at no position |
| Regex.SubLength | app.py:55-58 | each replacement changes the length by the tag length minus the delimiter length, and nothing else changes it |
| Regex.PassLength | app.py:55-58 | the same length fact for a whole pass |
| Regex.UntagSub | app.py:55-58 | on text without `<`, turning the inserted tags back into the delimiters restores the input |
| Regex.SubAfterPrefix | app.py:55-58 | text before a position does not change what the scan does from there on |
| Regex.SubConcatPlain | app.py:55-58 | a prefix with no match is copied and the rest is substituted independently |
| Regex.SpansDigits | app.py:58 | a span of the items covers at least as many digits as the digit items require |
| PyStr.Strip | app.py:113 | `str.strip()`: the slice between the leading and the trailing whitespace; its contract is `StripSpec` |
| PyStr.Split | app.py:111 | `s.split('\n')`: one part more than there are separators, and no part holds a separator |
| PyStr.FindFrom | app.py:163 | the search for the separator that `split(sep, maxsplit=1)` performs: the first occurrence at or after `i`, with none earlier, or none at all |
| PyStr.SliceInner | app.py:130 | `line[2:-2]` written without negative indices; its contracts are `SliceInnerIsPySlice` and `SliceInnerRejoin` |
| PyStr.SliceBound | app.py:130 | how Python reads one slice index on a text of length `n`: an index in `0..n` is kept, a negative one down to `-n` counts from the end, and anything beyond is clamped to `0` or `n` |
| PyStr.PySlice | app.py:130 | Python's `s[a:b]`: each bound counts from the end when negative and is clamped to the text; crossed bounds give the empty text |
| PyStr.SliceInnerIsPySlice | app.py:130 | the slice without negative indices agrees with Python's `s[k:-k]` on every text |
| PyStr.SliceInnerRejoin | app.py:130 | `s[k:-k]` is `2k` shorter and rejoins with the first and last `k` characters into `s`; a text shorter than `2k` leaves nothing |
| PyStr.StripSpec | app.py:113 | `strip()` keeps one slice of the line, which is empty or has whitespace at neither end, and removes only whitespace around it; the result is empty exactly when the line is all whitespace |
| PyStr.StripTrimmed | app.py:113 | stripping a trimmed line leaves it as it is |
| PyStr.StripPadded | app.py:113 | stripping whitespace-padded trimmed text returns that text |
| PyStr.StripPadding | app.py:113 | extra whitespace on either side does not change the stripped result |
| PyStr.JoinSplit | app.py:111 | `'\n'.join(s.split('\n')) == s` |
| PyStr.SplitJoin | app.py:111 | splitting newline-free parts joined by newlines gives back the parts |
| PyStr.SplitConcat | app.py:111 | the lines of `x + '\n' + y` are the lines of `x` followed by the lines of `y` |
| MarkdownLine.Classify | app.py:113-132 | the stripped line's class by first matching test: blank, `# `, `## `, `### `, `- ` or `* `, starts and ends with `**`, anything else; each class keeps the text its branch slices out |
| MarkdownLine.BlankIff | app.py:113-116 | a line is classed blank exactly when it is all whitespace |
| MarkdownLine.IndentIrrelevant | app.py:113 | surrounding whitespace does not change a line's class |
| MarkdownLine.TextsTrimmed | app.py:113-132 | title, heading, sub-heading and bullet texts are non-empty and trimmed; a bold-only text is empty or trimmed; a plain line is the stripped line |
| MarkdownLine.TitleLine | app.py:118-119 | `# ` then padding then trimmed `t` is a title with text `t` |
| MarkdownLine.HeadingLine | app.py:121-122 | `## ` then padding then `t` is a heading with text `t` |
| MarkdownLine.SubHeadingLine | app.py:124-125 | `### ` then padding then `t` is a sub-heading with text `t` |
| MarkdownLine.ItemLine | app.py:126-127 | `- ` or `* ` then padding then `t` is a list item with text `t` |
| MarkdownLine.BoldOnlyLine | app.py:129-130 | `**`, padded `t`, `**` is a bold-only line with text `t` |
| MarkdownLine.BoldClass | app.py:129-130 | a line that starts and ends with `**` is bold-only; its text is `line[2:-2]` stripped, with no length check |
| MarkdownLine.ShortBoldLines | agent.py:145-148 | `**` and `***` are bold-only lines with empty text |
| MarkdownLine.HashesWithoutSpace | app.py:118-132 | `###NoSpace` matches no prefix and is a plain line |
| MarkdownLine.HashWithoutSpace | agent.py:124-155 | `#x` matches no prefix and is a plain line |
| AppLayout.KindElements | app.py:114-132 | the elements app.py appends per class: an 8-point spacer for a blank line; a title and a 12-point spacer; a heading and a 6-point spacer; a sub-heading; a bullet with inline formatting; `<b>t</b>` unformatted; an inline-formatted paragraph |
| AppLayout.LineElements | app.py:113-132 | the elements of one raw line: its class's elements |
| AppLayout.Document | app.py:111-132 | the elements of a whole text: each line's elements in line order |
| AppLayout.BuildElements | app.py:69-132 | the loop over the lines builds exactly the list `Document(markdownText)` |
| AppLayout.AppendLine | app.py:112-132 | one pass of the loop body appends exactly that line's elements |
| AppLayout.RenderLength | app.py:111-132 | the list has one element per line plus one extra spacer per title or heading line |
| AppLayout.DocumentLength | app.py:111-134 | the element count is `count('\n') + 1` plus the number of `# ` and `## ` lines; there is no trailing spacer |
| AppLayout.LineLength | app.py:114-132 | a line gives two elements if it is a title or heading, otherwise one |
| AppLayout.DocumentConcat | app.py:111-132 | elements follow line order: the document of `x + '\n' + y` is the document of `x` followed by that of `y` |
| AppLayout.SingleLine | app.py:111-132 | a text without newlines gives exactly the elements of its one line |
| AppLayout.BlankLine | app.py:114-116 | a line gives exactly `[Spacer(1, 8)]` precisely when it is all whitespace |
| AppLayout.ParaTextsNonEmpty | app.py:113-132 | every paragraph of a line has non-empty text, and titles, headings and sub-headings are trimmed |
| AppLayout.DocumentTextsNonEmpty | app.py:111-132 | no paragraph of a document has empty text |
| AppLayout.TitleElements | app.py:118-120 | `# t` gives the title paragraph `t` and a 12-point spacer, and counts as a line with an extra spacer |
| AppLayout.HeadingElements | app.py:121-123 | `## t` gives the heading paragraph `t` and a 6-point spacer |
| AppLayout.SubHeadingElements | app.py:124-125 | `### t` gives the sub-heading paragraph `t`, not bold-wrapped |
| AppLayout.BulletElements | app.py:126-128 | `- t` or `* t` gives a normal paragraph of the bullet followed by `t` inline-formatted |
| AppLayout.BoldOnlyElements | app.py:129-130 | `**t**` gives `<b>t</b>` with no inline formatting and no extra spacer |
| AppLayout.TwoBoldSpansLine | app.py:129-130 | `**A** and **B**` is taken as one bold-only line, giving `<b>A** and **B</b>` |
| AppLayout.PlainElements | app.py:131-132 | any other line, indented or not, gives one normal paragraph of the stripped line after the inline passes |
| AppLayout.UnformattedLine | app.py:131-132 | an already-stripped plain line with no `*`, no `@` and fewer than four digits gives a paragraph of itself |
| AppLayout.NoSpaceAfterHashes | app.py:118-132 | `###NoSpace` falls through to a normal paragraph of itself |
| AppLayout.ResumeShape | app.py:111-132 | a title, a blank line and a bullet give title, spacer 12, spacer 8 and the bullet paragraph, in that order |
| AppResult.SplitOnce | app.py:163 | `s.split(sep, maxsplit=1)`: one or two parts |
| AppResult.SplitResult | app.py:163-165 | the resume and suggestions texts the page shows |
| AppResult.SplitOnceParts | app.py:163 | `split(sep, maxsplit=1)` gives one part, the input, exactly when the separator is absent; otherwise two parts that rejoin around the separator, which starts right after the first part with no earlier occurrence; the first part never holds the separator |
| AppResult.ResumeHasNoMarker | app.py:163-164 | the resume part never contains the marker |
| AppResult.StripNoNew | app.py:164 | stripping does not create an occurrence of a string |
| AppResult.MarkerMissing | app.py:163-165 | the suggestions are the fixed "no suggestions" text exactly when the marker is absent, and then the resume is the whole answer stripped |
| AppResult.SplitAtMarker | app.py:163-165 | for a marker-free resume `a`, the marker and a tail `b`, the resume is `a` stripped and the suggestions are the marker line followed by `b` stripped |
| AgentLayout.KindElements | agent.py:119-155 | the elements agent.py appends per class: a 12-point spacer for a blank line; a title and a 12-point spacer; a heading alone; `<b>t</b>` in the normal style for a `### ` line and a bold-only line; a bullet without inline formatting; an inline-formatted paragraph for a non-empty plain line |
| AgentLayout.Appended | agent.py:115-157 | everything one call appends: each line's elements in order, then the closing 12-point spacer |
| AgentLayout.ElementList.constructor | agent.py:83 | a new list holds no elements |
| AgentLayout.ElementList.Append | agent.py:120 | `append` adds one element at the end and changes nothing else |
| AgentLayout.ParseMarkdownToPdf | agent.py:113-157 | the parser only appends: the prior elements are unchanged and followed by `Appended(markdownText)` |
| AgentLayout.AppendLine | agent.py:117-155 | one pass of the loop body appends exactly that line's elements |
| AgentLayout.LineLength | agent.py:117-155 | a line gives two elements if it is a title, otherwise one |
| AgentLayout.LinesLength | agent.py:115-155 | the lines give one element each plus one per title line |
| AgentLayout.AppendedLength | agent.py:115-157 | the list grows by `count('\n') + 1`, plus the number of `# ` lines, plus one, and the last element appended is always `Spacer(1, 12)` |
| AgentLayout.EmptyDocument | agent.py:115-157 | an empty text appends exactly two 12-point spacers |
| AgentLayout.BlankLine | agent.py:119-121 | a line gives exactly `[Spacer(1, 12)]` precisely when it is all whitespace |
| AgentLayout.TitleElements | agent.py:124-128 | `# t` gives the title paragraph `t` and a 12-point spacer |
| AgentLayout.HeadingElements | agent.py:130-133 | `## t` gives the heading paragraph `t` and no spacer |
| AgentLayout.SubHeadingElements | agent.py:135-138 | `### t` gives a normal paragraph `<b>t</b>` |
| AgentLayout.BulletElements | agent.py:140-143 | `- t` or `* t` gives the bullet followed by `t` verbatim, without inline formatting |
| AgentLayout.BoldOnlyElements | agent.py:145-148 | `**t**` gives `<b>t</b>` |
| AgentLayout.ShortBoldElements | agent.py:145-148 | `**` and `***` give `<b></b>` |
| AgentLayout.JobTitleExample | agent.py:145-148 | `**Senior Engineer**` gives `<b>Senior Engineer</b>` |
| AgentLayout.PlainElements | agent.py:150-155 | any other line gives a normal paragraph of the stripped line, inline-formatted |
| AgentLayout.UnformattedLine | agent.py:150-155 | a non-empty, already-stripped plain line with no `*`, no `@` and fewer than four digits gives a paragraph of itself |
| AgentLayout.NoSpaceAfterHashes | agent.py:124-155 | `###NoSpace` falls through to a normal paragraph of itself |
| AgentLayout.HashThenLetter | agent.py:124-155 | `#x` falls through to a normal paragraph of itself |

## Left out

- The Streamlit page, its widgets and the download buttons (app.py:142-212) are front-end glue with no logic of their own.
- The calls to the language model and the prompt texts (app.py:25-51, agent.py:20-64) are network I/O. The model starts from the text they return.
- PDF text extraction with `PdfReader` (app.py:157-158) belongs to a foreign library.
- The reportlab backend is not modelled: `SimpleDocTemplate`, `doc.build`, and the fonts, sizes, colours and margins of each `ParagraphStyle` (app.py:66-109, 134; agent.py:78-111). Elements are passed to it as values, and only the role of each style is kept.
- Temporary files, file reads, deletion, `os.makedirs` and timestamped file names (app.py:62-63, 136-140; agent.py:69-75) are I/O and clock access.
- The `agno` `Agent` base class (agent.py:16-18) is a foreign framework.
- `\d` is modelled as the ASCII digits only. Python also matches other Unicode decimal digits, so the phone facts hold for ASCII digits.
- The regex model covers only the constructs these four patterns use: literal characters, `.`, `\S`, `\d`, `[-.\s]`, bounded and unbounded repetition, `?`, and lazy `*?`. Alternation, anchors, flags and other escapes are not modelled.
- Each string is a sequence of code points. Encodings and Unicode normalisation are not modelled.
