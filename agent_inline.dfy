/**
 * `ResumeOptimizer._format_markdown_inline` of agent.py: its own copy of the
 * four `re.sub` passes, with the same patterns in the same order as
 * `format_markdown_inline` of app.py.
 */
module AgentInline {
  import opened Regex
  import AppInline

  const Bold := Rule("**", [LazyAny], "**", "b")
  const Italic := Rule("*", [LazyAny], "*", "i")
  const Email := Rule("", [Plus(NonSpace), Once('@'), Plus(NonSpace), Once('.'), Plus(NonSpace)], "", "u")
  const Phone := Rule("", [
    Maybe(Exactly('+')), Between(Digit, 1, 3), Maybe(Separator),
    Maybe(Exactly('(')), Between(Digit, 1, 4), Maybe(Exactly(')')), Maybe(Separator),
    Between(Digit, 1, 4), Maybe(Separator), Between(Digit, 1, 9)], "", "u")

  /** The four patterns are those of app.py. */
  lemma SameRules()
    ensures Bold == AppInline.Bold && Italic == AppInline.Italic
    ensures Email == AppInline.Email && Phone == AppInline.Phone
  {
    assert AppInline.EmailBody == [Plus(NonSpace), Once('@'), Plus(NonSpace), Once('.'), Plus(NonSpace)];
  }

  /** The passes of `_format_markdown_inline`, in the order it applies them. */
  const Passes := [Bold, Italic, Email, Phone]

  function FormatMarkdownInline(text: string): string
  {
    SameRules();
    AppInline.PassesFacts();
    SubAll(Passes, text)
  }

  /** The two copies of the formatter agree on every text. */
  lemma SameAsApp(text: string)
    ensures FormatMarkdownInline(text) == AppInline.FormatMarkdownInline(text)
  {
    SameRules();
    assert Passes == AppInline.Passes;
  }
}
