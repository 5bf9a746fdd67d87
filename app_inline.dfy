/**
 * `format_markdown_inline` of app.py: four `re.sub` passes over one line, in
 * a fixed order (bold, italic, e-mail, phone), each free to act on the markup
 * the previous ones inserted.
 */
module AppInline {
  import opened Wrappers
  import opened PyStr
  import opened Regex

  /** `re.sub(r'\*\*(.*?)\*\*', r'<b>\1</b>', text)` */
  const Bold := Rule("**", [LazyAny], "**", "b")

  /** `re.sub(r'\*(.*?)\*', r'<i>\1</i>', text)` */
  const Italic := Rule("*", [LazyAny], "*", "i")

  // `(\S+@\S+\.\S+)`, built up from its tail so that each suffix has a name.
  const Tld := [Plus(NonSpace)]
  const DotTld := [Once('.')] + Tld
  const Domain := [Plus(NonSpace)] + DotTld
  const AtDomain := [Once('@')] + Domain
  const EmailBody := [Plus(NonSpace)] + AtDomain

  /** `re.sub(r'(\S+@\S+\.\S+)', r'<u>\1</u>', text)` */
  const Email := Rule("", EmailBody, "", "u")

  // `\+?\d{1,3}[-.\s]?\(?\d{1,4}\)?[-.\s]?\d{1,4}[-.\s]?\d{1,9}`, built up
  // from its tail: `Phone<k>` is the pattern from its item number k on.
  const Phone9 := [Between(Digit, 1, 9)]
  const Phone8 := [Maybe(Separator)] + Phone9
  const Phone7 := [Between(Digit, 1, 4)] + Phone8
  const Phone6 := [Maybe(Separator)] + Phone7
  const Phone5 := [Maybe(Exactly(')'))] + Phone6
  const Phone4 := [Between(Digit, 1, 4)] + Phone5
  const Phone3 := [Maybe(Exactly('('))] + Phone4
  const Phone2 := [Maybe(Separator)] + Phone3
  const Phone1 := [Between(Digit, 1, 3)] + Phone2
  const PhoneBody := [Maybe(Exactly('+'))] + Phone1

  /** `re.sub(r'(<PhoneBody>)', r'<u>\1</u>', text)` */
  const Phone := Rule("", PhoneBody, "", "u")

  lemma BoldFacts()
    ensures WellFormed(Bold) && Growth(Bold) == 3
    ensures Open(Bold.tag) == "<b>" && Close(Bold.tag) == "</b>"
  {
  }

  lemma ItalicFacts()
    ensures WellFormed(Italic) && Growth(Italic) == 5
    ensures Open(Italic.tag) == "<i>" && Close(Italic.tag) == "</i>"
  {
  }

  lemma EmailFacts()
    ensures WellFormed(Email) && Growth(Email) == 7 && Email.lead == [] && Email.trail == []
    ensures Open(Email.tag) == "<u>" && Close(Email.tag) == "</u>"
  {
    assert MinLen(EmailBody) >= 1;
  }

  lemma PhoneFacts()
    ensures WellFormed(Phone) && Growth(Phone) == 7 && Phone.lead == [] && Phone.trail == []
    ensures Open(Phone.tag) == "<u>" && Close(Phone.tag) == "</u>"
  {
    PhoneShape();
    PhoneMinLen();
  }

  lemma PhoneShape()
    ensures Growth(Phone) == 7 && Phone.lead == [] && Phone.trail == []
    ensures Open(Phone.tag) == "<u>" && Close(Phone.tag) == "</u>"
  {
  }

  lemma PhoneMinLen()
    ensures MinLen(Phone.body) >= 1
  {
    PhoneSuffixes();
    MinLenFirst(Phone1);
    assert MinLen(PhoneBody) == PhoneBody[0].min + MinLen(Phone1);
  }

  /** None of the four patterns matches the empty string; what one replacement adds to the length. */
  lemma RuleFacts()
    ensures WellFormed(Bold) && WellFormed(Italic) && WellFormed(Email) && WellFormed(Phone)
    ensures Growth(Bold) == 3 && Growth(Italic) == 5 && Growth(Email) == 7 && Growth(Phone) == 7
  {
    BoldFacts();
    ItalicFacts();
    EmailFacts();
    PhoneFacts();
  }

  /** The four passes in the order app.py applies them. */
  const Passes := [Bold, Italic, Email, Phone]

  lemma PassesFacts()
    ensures |Passes| == 4 && forall k :: 0 <= k < |Passes| ==> WellFormed(Passes[k])
  {
    RuleFacts();
  }

  /** `format_markdown_inline` (app.py:54-59). */
  function FormatMarkdownInline(text: string): string
  {
    PassesFacts();
    SubAll(Passes, text)
  }

  /** Formatting is the four substitutions, bold first and phone last. */
  lemma FormatPasses(text: string)
    ensures FormatMarkdownInline(text) == Sub(Phone, Sub(Email, Sub(Italic, Sub(Bold, text))))
  {
    RuleFacts();
    PassesFacts();
    var s1 := Sub(Bold, text);
    var s2 := Sub(Italic, s1);
    var s3 := Sub(Email, s2);
    var s4 := Sub(Phone, s3);
    var r := Passes;
    assert r[1..] == [Italic, Email, Phone] && r[1..][1..] == [Email, Phone];
    assert r[1..][1..][1..] == [Phone] && r[1..][1..][1..][1..] == [];
    SubAllStep(r, text);
    SubAllStep(r[1..], s1);
    SubAllStep(r[1..][1..], s2);
    SubAllStep(r[1..][1..][1..], s3);
  }

  /** The output grows by 3 per bold, 5 per italic and 7 per underlined match. */
  lemma FormatLength(text: string)
    ensures var bolded := Sub(Bold, text);
            var italicised := Sub(Italic, bolded);
            var mailed := Sub(Email, italicised);
            |FormatMarkdownInline(text)| == |text| + 3 * MatchCount(Bold, text, 0)
              + 5 * MatchCount(Italic, bolded, 0) + 7 * MatchCount(Email, italicised, 0)
              + 7 * MatchCount(Phone, mailed, 0)
  {
    FormatPasses(text);
    var bolded := Sub(Bold, text);
    var italicised := Sub(Italic, bolded);
    var mailed := Sub(Email, italicised);
    assert |bolded| == |text| + 3 * MatchCount(Bold, text, 0) by { BoldFacts(); PassLength(Bold, text); }
    assert |italicised| == |bolded| + 5 * MatchCount(Italic, bolded, 0) by { ItalicFacts(); PassLength(Italic, bolded); }
    assert |mailed| == |italicised| + 7 * MatchCount(Email, italicised, 0) by { EmailFacts(); PassLength(Email, italicised); }
    assert |Sub(Phone, mailed)| == |mailed| + 7 * MatchCount(Phone, mailed, 0) by { PhoneFacts(); PassLength(Phone, mailed); }
  }

  /** Formatting never shortens the text. */
  lemma FormatGrows(text: string)
    ensures |FormatMarkdownInline(text)| >= |text|
  {
    FormatLength(text);
  }

  /**
   * Each pass only inserts its tags: on text without `<`, turning `<b>`/`</b>`
   * back into `**`, `<i>`/`</i>` into `*`, or deleting `<u>`/`</u>`
   * restores that pass's input.
   */
  lemma EachPassOnlyInsertsTags(s: string)
    requires '<' !in s
    ensures Untag(Bold, Sub(Bold, s)) == s
    ensures Untag(Italic, Sub(Italic, s)) == s
    ensures Untag(Email, Sub(Email, s)) == s
    ensures Untag(Phone, Sub(Phone, s)) == s
  {
    UntagSub(Bold, s, 0);
    UntagSub(Italic, s, 0);
    UntagSub(Email, s, 0);
    UntagSub(Phone, s, 0);
  }

  // ---------------------------------------------------------------------------
  // Bold and italic: the nearest closing delimiter on the same line

  /** `**` at `i` pairs with the nearest `**` starting at or after `i + 2`, with no line break between. */
  lemma BoldMatchNearest(s: string, i: nat, g: nat)
    requires i <= |s|
    ensures MatchAt(Bold, s, i) == Some(g) <==>
      && StartsWithAt(s, i, "**") && i + 2 <= g && StartsWithAt(s, g, "**")
      && forall j :: i + 2 <= j < g ==> s[j] != '\n' && !StartsWithAt(s, j, "**")
  {
    if StartsWithAt(s, i, "**") {
      LazyAnyMatch(s, i + 2, "**", g);
    }
  }

  /** `*` at `i` pairs with the nearest following `*`, with no line break between. */
  lemma ItalicMatchNearest(s: string, i: nat, g: nat)
    requires i <= |s|
    ensures MatchAt(Italic, s, i) == Some(g) <==>
      && StartsWithAt(s, i, "*") && i + 1 <= g && StartsWithAt(s, g, "*")
      && forall j :: i + 1 <= j < g ==> s[j] != '\n' && !StartsWithAt(s, j, "*")
  {
    if StartsWithAt(s, i, "*") {
      LazyAnyMatch(s, i + 1, "*", g);
    }
  }

  /** Without `*` neither emphasis pass matches anywhere. */
  lemma NoStarNoEmphasis(s: string)
    requires '*' !in s
    ensures forall i :: 0 <= i <= |s| ==> MatchAt(Bold, s, i).None? && MatchAt(Italic, s, i).None?
  {
    forall i | 0 <= i <= |s| ensures MatchAt(Bold, s, i).None? && MatchAt(Italic, s, i).None? {
      if i < |s| {
        assert s[i] != '*';
        DiffersAtIndex(s, i, "**", 0);
        DiffersAtIndex(s, i, "*", 0);
      }
    }
  }

  // ---------------------------------------------------------------------------
  // E-mail: a whole whitespace-free run, or nothing

  /** Where the run of non-whitespace characters starting at `q` ends. */
  function RunEnd(s: string, q: nat): (e: nat)
    requires q <= |s|
    ensures q <= e <= |s| && (e == |s| || IsSpace(s[e]))
    ensures forall j :: q <= j < e ==> !IsSpace(s[j])
  {
    q + Run(NonSpace, s, q)
  }

  /** Starting inside a run ends where the run ends. */
  lemma RunEndInside(s: string, q: nat, j: nat)
    requires q <= |s| && q <= j <= RunEnd(s, q)
    ensures RunEnd(s, j) == RunEnd(s, q)
  {
    RunSuffix(NonSpace, s, q, j - q);
  }

  /** A `.` after `q` inside the run, followed by at least one more character of the run. */
  ghost predicate DotInside(s: string, q: nat)
    requires q <= |s|
  {
    exists d :: q < d && d + 1 < RunEnd(s, q) && s[d] == '.'
  }

  /** `'@'` after `q` inside the run, followed by a `DotInside` part. */
  ghost predicate AtInside(s: string, q: nat)
    requires q <= |s|
  {
    exists a :: q < a < RunEnd(s, q) && s[a] == '@' && DotInside(s, a + 1)
  }

  /**
   * The run starting at `i` reads `x@y.z` with `x`, `y`, `z` non-empty: some
   * character before an `@`, then at least one character, a `.`, and at least
   * one more character.
   */
  ghost predicate EmailShaped(s: string, i: nat)
    requires i <= |s|
  {
    exists a, d :: i < a && a + 1 < d && d + 1 < RunEnd(s, i) && s[a] == '@' && s[d] == '.'
  }

  lemma TldMatch(s: string, q: nat)
    requires q <= |s|
    ensures MatchSeq(Tld, s, q, "") == if q < RunEnd(s, q) then Some(RunEnd(s, q)) else None
  {
    assert Tld[1..] == [];
  }

  lemma DotTldMatch(s: string, q: nat)
    requires q <= |s|
    ensures MatchSeq(DotTld, s, q, "") ==
      if q < |s| && s[q] == '.' && q + 1 < RunEnd(s, q) then Some(RunEnd(s, q)) else None
  {
    assert DotTld[1..] == Tld;
    if q < |s| && s[q] == '.' {
      assert Avail(DotTld[0], s, q) == 1;
      TldMatch(s, q + 1);
      RunEndInside(s, q, q + 1);
    } else {
      assert Avail(DotTld[0], s, q) == 0;
    }
  }

  lemma DomainMatch(s: string, q: nat)
    requires q <= |s|
    ensures MatchSeq(Domain, s, q, "") == if DotInside(s, q) then Some(RunEnd(s, q)) else None
  {
    assert Domain[1..] == DotTld;
    var n := Run(NonSpace, s, q);
    var e := RunEnd(s, q);
    if n >= 1 {
      forall q' | q + 1 <= q' <= q + n
        ensures MatchSeq(DotTld, s, q', "") == None || MatchSeq(DotTld, s, q', "") == Some(e)
      {
        DotTldMatch(s, q');
        RunEndInside(s, q, q');
      }
      assert UniformUpTo(Domain, s, q, "", n, e);
      TryDownUniform(Domain, s, q, "", n, e);
      if DotInside(s, q) {
        var d :| q < d && d + 1 < e && s[d] == '.';
        DotTldMatch(s, d);
        RunEndInside(s, q, d);
        assert SomeChoiceUpTo(Domain, s, q, "", n);
      }
      if SomeChoiceUpTo(Domain, s, q, "", n) {
        var d :| q + 1 <= d <= q + n && MatchSeq(DotTld, s, d, "").Some?;
        DotTldMatch(s, d);
        RunEndInside(s, q, d);
        assert DotInside(s, q);
      }
    }
  }

  lemma AtDomainMatch(s: string, q: nat)
    requires q <= |s|
    ensures MatchSeq(AtDomain, s, q, "") ==
      if q < |s| && s[q] == '@' && DotInside(s, q + 1) then Some(RunEnd(s, q)) else None
  {
    assert AtDomain[1..] == Domain;
    if q < |s| && s[q] == '@' {
      assert Avail(AtDomain[0], s, q) == 1;
      DomainMatch(s, q + 1);
      RunEndInside(s, q, q + 1);
    } else {
      assert Avail(AtDomain[0], s, q) == 0;
    }
  }

  lemma EmailBodyMatch(s: string, i: nat)
    requires i <= |s|
    ensures MatchSeq(EmailBody, s, i, "") == if AtInside(s, i) then Some(RunEnd(s, i)) else None
  {
    assert EmailBody[1..] == AtDomain;
    var n := Run(NonSpace, s, i);
    var e := RunEnd(s, i);
    if n >= 1 {
      forall q' | i + 1 <= q' <= i + n
        ensures MatchSeq(AtDomain, s, q', "") == None || MatchSeq(AtDomain, s, q', "") == Some(e)
      {
        AtDomainMatch(s, q');
        RunEndInside(s, i, q');
      }
      assert UniformUpTo(EmailBody, s, i, "", n, e);
      TryDownUniform(EmailBody, s, i, "", n, e);
      if AtInside(s, i) {
        var a :| i < a < e && s[a] == '@' && DotInside(s, a + 1);
        AtDomainMatch(s, a);
        assert SomeChoiceUpTo(EmailBody, s, i, "", n);
      }
      if SomeChoiceUpTo(EmailBody, s, i, "", n) {
        var a :| i + 1 <= a <= i + n && MatchSeq(AtDomain, s, a, "").Some?;
        AtDomainMatch(s, a);
        assert AtInside(s, i);
      }
    }
  }

  lemma AtInsideShaped(s: string, i: nat)
    requires i <= |s|
    ensures AtInside(s, i) <==> EmailShaped(s, i)
  {
    if AtInside(s, i) {
      var a :| i < a < RunEnd(s, i) && s[a] == '@' && DotInside(s, a + 1);
      RunEndInside(s, i, a + 1);
      var d :| a + 1 < d && d + 1 < RunEnd(s, a + 1) && s[d] == '.';
      assert EmailShaped(s, i);
    }
    if EmailShaped(s, i) {
      var a, d :| i < a && a + 1 < d && d + 1 < RunEnd(s, i) && s[a] == '@' && s[d] == '.';
      RunEndInside(s, i, a + 1);
      assert DotInside(s, a + 1);
      assert AtInside(s, i);
    }
  }

  /**
   * Whatever `\S+` the engine tries first and gives back, the e-mail pattern at
   * `i` matches exactly when the whole run starting at `i` is e-mail shaped, and
   * then it takes the whole run.
   */
  lemma EmailMatchWholeRun(s: string, i: nat)
    requires i <= |s|
    ensures MatchAt(Email, s, i) == if EmailShaped(s, i) then Some(RunEnd(s, i)) else None
  {
    assert StartsWithAt(s, i, "");
    EmailBodyMatch(s, i);
    AtInsideShaped(s, i);
  }

  // ---------------------------------------------------------------------------
  // Phone: at least four digits, starting at a `+` or a digit

  lemma PhoneMinDigits()
    ensures MinDigits(PhoneBody) == 4
  {
    PhoneSuffixes();
    assert MinDigits(Phone9) == 1 && MinDigits(Phone8) == 1;
    assert MinDigits(Phone7) == 2 && MinDigits(Phone6) == 2 && MinDigits(Phone5) == 2;
    assert MinDigits(Phone4) == 3 && MinDigits(Phone3) == 3 && MinDigits(Phone2) == 3;
    assert MinDigits(Phone1) == 4;
  }

  /** Every phone match spans at least four digits. */
  lemma PhoneNeedsFourDigits(s: string, i: nat, g: nat)
    requires i <= |s| && MatchAt(Phone, s, i) == Some(g)
    ensures i <= g <= |s| && DigitsIn(s, i, g) >= 4
  {
    assert StartsWithAt(s, i, "");
    MatchSeqSound(PhoneBody, s, i, "");
    SpansDigits(PhoneBody, s, i, g);
    PhoneMinDigits();
  }

  /** A phone match starts at a `+` or at a digit. */
  lemma PhoneMatchStart(s: string, i: nat)
    requires i <= |s| && MatchAt(Phone, s, i).Some?
    ensures i < |s| && (s[i] == '+' || IsDigit(s[i]))
  {
    var g := MatchAt(Phone, s, i).value;
    assert StartsWithAt(s, i, "");
    MatchSeqSound(PhoneBody, s, i, "");
    PhoneSuffixes();
    assert PhoneBody[1] == Phone1[0];
    SpansOptionalThen(PhoneBody, s, i, g);
  }

  // ---------------------------------------------------------------------------
  // When a pass leaves the text alone

  lemma NoStarUnchanged(s: string)
    requires '*' !in s
    ensures Sub(Bold, s) == s && Sub(Italic, s) == s
  {
    BoldFacts();
    ItalicFacts();
    NoStarNoEmphasis(s);
    SubUnchanged(Bold, s);
    SubUnchanged(Italic, s);
  }

  lemma NoAtUnchanged(s: string)
    requires '@' !in s
    ensures Sub(Email, s) == s
  {
    EmailFacts();
    forall k | 0 <= k < |s| ensures MatchAt(Email, s, k).None? {
      EmailMatchWholeRun(s, k);
    }
    SubUnchanged(Email, s);
  }

  lemma FewDigitsUnchanged(s: string)
    requires DigitsIn(s, 0, |s|) < 4
    ensures Sub(Phone, s) == s
  {
    PhoneFacts();
    forall k | 0 <= k < |s| ensures MatchAt(Phone, s, k).None? {
      if MatchAt(Phone, s, k).Some? {
        var g := MatchAt(Phone, s, k).value;
        PhoneNeedsFourDigits(s, k, g);
        DigitsWithin(s, k, g);
      }
    }
    SubUnchanged(Phone, s);
  }

  /** A line with no `*`, no `@` and fewer than four digits comes back unchanged. */
  lemma PlainLineUnchanged(s: string)
    requires '*' !in s && '@' !in s && DigitsIn(s, 0, |s|) < 4
    ensures FormatMarkdownInline(s) == s
  {
    FormatPasses(s);
    NoStarUnchanged(s);
    NoAtUnchanged(s);
    FewDigitsUnchanged(s);
  }

  // ---------------------------------------------------------------------------
  // Pieces of a line, pass by pass

  /** Text without `*` is copied through by both emphasis passes. */
  lemma StarFreePrefix(x: string, y: string)
    requires '*' !in x
    ensures Sub(Bold, x + y) == x + Sub(Bold, y)
    ensures Sub(Italic, x + y) == x + Sub(Italic, y)
  {
    BoldFacts();
    ItalicFacts();
    var s := x + y;
    forall k | 0 <= k < |x| ensures MatchAt(Bold, s, k).None? && MatchAt(Italic, s, k).None? {
      assert s[k] == x[k];
      DiffersAtIndex(s, k, "**", 0);
      DiffersAtIndex(s, k, "*", 0);
    }
    SubConcatPlain(Bold, x, y);
    SubConcatPlain(Italic, x, y);
  }

  /** A lone `*` is no bold delimiter. */
  lemma LoneStar(y: string)
    requires y == [] || y[0] != '*'
    ensures Sub(Bold, "*" + y) == "*" + Sub(Bold, y)
  {
    BoldFacts();
    var s := "*" + y;
    assert !StartsWithAt(s, 0, "**") by { if 2 <= |s| { assert s[1] == y[0]; DiffersAtIndex(s, 0, "**", 1); } }
    SubConcatPlain(Bold, "*", y);
  }

  lemma BoldSpanMatch(w: string, y: string)
    requires '*' !in w && '\n' !in w
    ensures MatchAt(Bold, "**" + w + "**" + y, 0) == Some(2 + |w|)
  {
    var s := "**" + w + "**" + y;
    var g := 2 + |w|;
    assert s[0..2] == "**";
    assert s[g..g + 2] == "**";
    forall j | 2 <= j < g ensures s[j] != '\n' && !StartsWithAt(s, j, "**") {
      assert s[j] == w[j - 2];
      DiffersAtIndex(s, j, "**", 0);
    }
    BoldMatchNearest(s, 0, g);
  }

  /** `**w**` becomes `<b>w</b>` when `w` has no `*` and no line break. */
  lemma BoldSpan(w: string, y: string)
    requires '*' !in w && '\n' !in w
    ensures Sub(Bold, "**" + w + "**" + y) == "<b>" + w + "</b>" + Sub(Bold, y)
  {
    BoldFacts();
    BoldSpanMatch(w, y);
    SubConcatWrap(Bold, w, y);
  }

  lemma ItalicSpanMatch(w: string, y: string)
    requires '*' !in w && '\n' !in w
    ensures MatchAt(Italic, "*" + w + "*" + y, 0) == Some(1 + |w|)
  {
    var s := "*" + w + "*" + y;
    var g := 1 + |w|;
    assert s[0..1] == "*";
    assert s[g..g + 1] == "*";
    forall j | 1 <= j < g ensures s[j] != '\n' && !StartsWithAt(s, j, "*") {
      assert s[j] == w[j - 1];
      DiffersAtIndex(s, j, "*", 0);
    }
    ItalicMatchNearest(s, 0, g);
  }

  /** `*w*` becomes `<i>w</i>` when `w` has no `*` and no line break. */
  lemma ItalicSpan(w: string, y: string)
    requires '*' !in w && '\n' !in w
    ensures Sub(Italic, "*" + w + "*" + y) == "<i>" + w + "</i>" + Sub(Italic, y)
  {
    ItalicFacts();
    ItalicSpanMatch(w, y);
    SubConcatWrap(Italic, w, y);
  }

  /** Text without `@` that ends in whitespace holds no e-mail and is copied through. */
  lemma AtFreePrefix(x: string, y: string)
    requires '@' !in x && (x == [] || IsSpace(x[|x| - 1]))
    ensures Sub(Email, x + y) == x + Sub(Email, y)
  {
    EmailFacts();
    var s := x + y;
    forall k | 0 <= k < |x| ensures MatchAt(Email, s, k).None? {
      EmailMatchWholeRun(s, k);
      assert s[|x| - 1] == x[|x| - 1];
      var e := RunEnd(s, k);
      assert e < |x|;
      assert forall a :: k < a < e ==> s[a] == x[a];
    }
    SubConcatPlain(Email, x, y);
  }

  lemma EmailWordMatch(m: string, a: nat, d: nat)
    requires Run(NonSpace, m, 0) == |m|
    requires 0 < a && a + 1 < d && d + 1 < |m| && m[a] == '@' && m[d] == '.'
    ensures MatchAt(Email, m, 0) == Some(|m|)
  {
    EmailMatchWholeRun(m, 0);
    assert EmailShaped(m, 0);
  }

  /** A whole whitespace-free line of the shape `x@y.z` is underlined as a whole. */
  lemma EmailWord(m: string, a: nat, d: nat)
    requires Run(NonSpace, m, 0) == |m|
    requires 0 < a && a + 1 < d && d + 1 < |m| && m[a] == '@' && m[d] == '.'
    ensures Sub(Email, m) == "<u>" + m + "</u>"
  {
    EmailFacts();
    EmailWordMatch(m, a, d);
    WholeMatch(Email, m);
  }

  /** Text without `+` and digits holds no phone number and is copied through. */
  lemma PhoneFreePrefix(x: string, y: string)
    requires '+' !in x && DigitsIn(x, 0, |x|) == 0
    ensures Sub(Phone, x + y) == x + Sub(Phone, y)
  {
    PhoneFacts();
    var s := x + y;
    forall k | 0 <= k < |x| ensures MatchAt(Phone, s, k).None? {
      assert s[k] == x[k];
      NoDigitAt(x, k);
      if MatchAt(Phone, s, k).Some? {
        PhoneMatchStart(s, k);
      }
    }
    SubConcatPlain(Phone, x, y);
  }

  lemma NoDigitAt(x: string, k: nat)
    requires k < |x| && DigitsIn(x, 0, |x|) == 0
    ensures !IsDigit(x[k])
  {
    DigitsSplit(x, 0, k, |x|);
    DigitsSplit(x, k, k + 1, |x|);
  }

  /** Each remaining pass leaves a piece that hits none of its triggers alone. */
  lemma PlainPiece(s: string)
    requires '*' !in s && '@' !in s && DigitsIn(s, 0, |s|) == 0
    ensures Sub(Bold, s) == s && Sub(Italic, s) == s && Sub(Email, s) == s && Sub(Phone, s) == s
  {
    NoStarUnchanged(s);
    NoAtUnchanged(s);
    FewDigitsUnchanged(s);
  }

  lemma EmptyUnchanged(rule: Rule)
    requires WellFormed(rule)
    ensures Sub(rule, "") == ""
  {
  }

  // ---------------------------------------------------------------------------
  // Whole lines

  /** `*b*` is left to the italic pass. */
  lemma BoldSkipsItalic(b: string)
    requires b != [] && '*' !in b
    ensures Sub(Bold, "*" + b + "*") == "*" + b + "*"
  {
    assert "*" + b + "*" == "*" + (b + "*");
    LoneStar(b + "*");
    StarFreePrefix(b, "*");
    LoneStar("");
    BoldFacts();
    EmptyUnchanged(Bold);
    assert "*" + "" == "*";
  }

  /** The e-mail and phone passes leave a line alone that has no `@` and fewer than four digits. */
  lemma LastPassesUnchanged(t: string)
    requires '@' !in t && DigitsIn(t, 0, |t|) < 4
    ensures Sub(Phone, Sub(Email, t)) == t
  {
    NoAtUnchanged(t);
    FewDigitsUnchanged(t);
  }

  lemma TagsHaveNoDigits()
    ensures DigitsIn("<b>", 0, 3) == 0 && DigitsIn("</b>", 0, 4) == 0
    ensures DigitsIn("<i>", 0, 3) == 0 && DigitsIn("</i>", 0, 4) == 0
    ensures DigitsIn("<u>", 0, 3) == 0 && DigitsIn("</u>", 0, 4) == 0
  {
    NoDigits("<b>", 0);
    NoDigits("</b>", 0);
    NoDigits("<i>", 0);
    NoDigits("</i>", 0);
    NoDigits("<u>", 0);
    NoDigits("</u>", 0);
  }

  lemma BoldPassSpan(a: string, rest: string)
    requires '*' !in a && '\n' !in a && Sub(Bold, rest) == rest
    ensures Sub(Bold, "**" + a + "**" + rest) == "<b>" + a + "</b>" + rest
  {
    BoldSpan(a, rest);
  }

  lemma BoldPassProse(x: string, a: string, mid: string, b: string)
    requires '*' !in x && '*' !in a && '*' !in mid && '*' !in b && b != [] && '\n' !in a
    ensures Sub(Bold, x + "**" + a + "**" + mid + "*" + b + "*") ==
      x + "<b>" + a + "</b>" + mid + "*" + b + "*"
  {
    var tail := mid + "*" + b + "*";
    var span := "**" + a + "**" + tail;
    assert Sub(Bold, tail) == tail by {
      assert tail == mid + ("*" + b + "*");
      StarFreePrefix(mid, "*" + b + "*");
      BoldSkipsItalic(b);
    }
    assert Sub(Bold, span) == "<b>" + a + "</b>" + tail by {
      BoldPassSpan(a, tail);
    }
    assert Sub(Bold, x + span) == x + Sub(Bold, span) by {
      StarFreePrefix(x, span);
    }
    ProseShape(x, a, mid, b);
  }

  lemma ProseShape(x: string, a: string, mid: string, b: string)
    ensures x + "**" + a + "**" + mid + "*" + b + "*" == x + ("**" + a + "**" + (mid + "*" + b + "*"))
    ensures x + ("<b>" + a + "</b>" + (mid + "*" + b + "*")) == x + "<b>" + a + "</b>" + mid + "*" + b + "*"
  {
  }

  lemma ItalicPassProse(head: string, b: string)
    requires '*' !in head && '*' !in b && '\n' !in b
    ensures Sub(Italic, head + "*" + b + "*") == head + "<i>" + b + "</i>"
  {
    var span := "*" + b + "*" + "";
    assert Sub(Italic, span) == "<i>" + b + "</i>" + "" by {
      ItalicSpan(b, "");
      ItalicFacts();
      EmptyUnchanged(Italic);
    }
    assert Sub(Italic, head + span) == head + Sub(Italic, span) by {
      StarFreePrefix(head, span);
    }
    ItalicShape(head, b);
  }

  lemma ItalicShape(head: string, b: string)
    ensures head + "*" + b + "*" == head + ("*" + b + "*" + "")
    ensures head + ("<i>" + b + "</i>" + "") == head + "<i>" + b + "</i>"
  {
  }

  lemma ProseDigits(x: string, a: string, mid: string, b: string)
    ensures var t := x + "<b>" + a + "</b>" + mid + "<i>" + b + "</i>";
      DigitsIn(t, 0, |t|) == DigitsIn(x + a + mid + b, 0, |x + a + mid + b|)
  {
    TagsHaveNoDigits();
    DigitsConcat(x, "<b>");
    DigitsConcat(x + "<b>", a);
    DigitsConcat(x + "<b>" + a, "</b>");
    DigitsConcat(x + "<b>" + a + "</b>", mid);
    DigitsConcat(x + "<b>" + a + "</b>" + mid, "<i>");
    DigitsConcat(x + "<b>" + a + "</b>" + mid + "<i>", b);
    DigitsConcat(x + "<b>" + a + "</b>" + mid + "<i>" + b, "</i>");
    DigitsConcat(x, a);
    DigitsConcat(x + a, mid);
    DigitsConcat(x + a + mid, b);
  }

  /**
   * A line of prose `x **a** mid *b*`: the bold span and the italic span are
   * tagged separately, and nothing else changes.
   */
  lemma FormatBoldThenItalic(x: string, a: string, mid: string, b: string)
    requires '*' !in x && '*' !in a && '*' !in mid && '*' !in b && b != []
    requires '\n' !in a && '\n' !in b
    requires '@' !in x && '@' !in a && '@' !in mid && '@' !in b
    requires DigitsIn(x + a + mid + b, 0, |x + a + mid + b|) < 4
    ensures FormatMarkdownInline(x + "**" + a + "**" + mid + "*" + b + "*") ==
      x + "<b>" + a + "</b>" + mid + "<i>" + b + "</i>"
  {
    FormatPasses(x + "**" + a + "**" + mid + "*" + b + "*");
    BoldPassProse(x, a, mid, b);
    var head := x + "<b>" + a + "</b>" + mid;
    ItalicPassProse(head, b);
    var t := head + "<i>" + b + "</i>";
    ProseDigits(x, a, mid, b);
    LastPassesUnchanged(t);
  }

  lemma WrapDigits(open: string, w: string, close: string)
    requires DigitsIn(open, 0, |open|) == 0 && DigitsIn(close, 0, |close|) == 0
    ensures DigitsIn(open + w + close, 0, |open + w + close|) == DigitsIn(w, 0, |w|)
  {
    DigitsConcat(open, w);
    DigitsConcat(open + w, close);
  }

  /** The e-mail and phone passes leave a tagged piece alone when they leave its text alone. */
  lemma WrappedLastPasses(open: string, w: string, close: string)
    requires open in {"<b>", "<i>"} && close in {"</b>", "</i>"}
    requires '@' !in w && DigitsIn(w, 0, |w|) < 4
    ensures Sub(Phone, Sub(Email, open + w + close)) == open + w + close
  {
    TagsHaveNoDigits();
    WrapDigits(open, w, close);
    LastPassesUnchanged(open + w + close);
  }

  /** A line that is one bold span `**w**` becomes `<b>w</b>`. */
  lemma FormatBoldWord(w: string)
    requires '*' !in w && '\n' !in w && '@' !in w && DigitsIn(w, 0, |w|) < 4
    ensures FormatMarkdownInline("**" + w + "**") == "<b>" + w + "</b>"
  {
    FormatPasses("**" + w + "**");
    var t := "<b>" + w + "</b>";
    assert Sub(Bold, "**" + w + "**") == t by {
      BoldFacts();
      BoldSpan(w, "");
      EmptyUnchanged(Bold);
      AppendEmpty("**" + w + "**");
      AppendEmpty(t);
    }
    NoStarUnchanged(t);
    WrappedLastPasses("<b>", w, "</b>");
  }

  lemma ItalicWordPass(w: string)
    requires '*' !in w && '\n' !in w
    ensures Sub(Italic, "*" + w + "*") == "<i>" + w + "</i>"
  {
    ItalicFacts();
    ItalicSpan(w, "");
    EmptyUnchanged(Italic);
    AppendEmpty("*" + w + "*");
    AppendEmpty("<i>" + w + "</i>");
  }

  /** `**` alone holds no bold span: the bold pattern needs four stars. */
  lemma BoldNeedsFourStars()
    ensures Sub(Bold, "**") == "**"
  {
    BoldFacts();
    forall k | 0 <= k < |"**"| ensures MatchAt(Bold, "**", k).None? {
      if MatchAt(Bold, "**", k).Some? {
        assert false;
      }
    }
    SubUnchanged(Bold, "**");
  }

  /** The bold pass leaves `*w*` alone for every star-free `w`, the empty one included. */
  lemma BoldLeavesStarred(w: string)
    requires '*' !in w
    ensures Sub(Bold, "*" + w + "*") == "*" + w + "*"
  {
    if w == [] {
      assert "*" + w + "*" == "**";
      BoldNeedsFourStars();
    } else {
      BoldSkipsItalic(w);
    }
  }

  /**
   * A line that is one italic span `*w*` becomes `<i>w</i>`, with no bold
   * tag; for the empty `w`, `**` alone becomes `<i></i>`.
   */
  lemma FormatItalicWord(w: string)
    requires '*' !in w && '\n' !in w && '@' !in w && DigitsIn(w, 0, |w|) < 4
    ensures FormatMarkdownInline("*" + w + "*") == "<i>" + w + "</i>"
  {
    FormatPasses("*" + w + "*");
    BoldLeavesStarred(w);
    ItalicWordPass(w);
    WrappedLastPasses("<i>", w, "</i>");
  }

  lemma AppendEmpty(s: string)
    ensures s + "" == s && "" + s == s
  {
  }

  lemma EmailLineDigits(x: string, m: string)
    ensures var t := x + "<u>" + m + "</u>"; DigitsIn(t, 0, |t|) == DigitsIn(x + m, 0, |x + m|)
  {
    TagsHaveNoDigits();
    DigitsConcat(x, "<u>");
    DigitsConcat(x + "<u>", m);
    DigitsConcat(x + "<u>" + m, "</u>");
    DigitsConcat(x, m);
  }

  lemma EmailPassAtEnd(x: string, m: string, a: nat, d: nat)
    requires '@' !in x && (x == [] || IsSpace(x[|x| - 1]))
    requires forall c :: c in m ==> !IsSpace(c)
    requires 0 < a && a + 1 < d && d + 1 < |m| && m[a] == '@' && m[d] == '.'
    ensures Sub(Email, x + m) == x + "<u>" + m + "</u>"
  {
    RunWhole(NonSpace, m);
    EmailWord(m, a, d);
    AtFreePrefix(x, m);
  }

  lemma PhonePassEmailLine(x: string, m: string)
    requires DigitsIn(x + m, 0, |x + m|) < 4
    ensures Sub(Phone, x + "<u>" + m + "</u>") == x + "<u>" + m + "</u>"
  {
    EmailLineDigits(x, m);
    FewDigitsUnchanged(x + "<u>" + m + "</u>");
  }

  /**
   * A line ending in an e-mail address `m`, after text `x` that has no `@`
   * and ends in whitespace: the address is underlined and nothing else changes.
   */
  lemma FormatEmailAtEnd(x: string, m: string, a: nat, d: nat)
    requires '*' !in x && '*' !in m && '@' !in x && (x == [] || IsSpace(x[|x| - 1]))
    requires forall c :: c in m ==> !IsSpace(c)
    requires 0 < a && a + 1 < d && d + 1 < |m| && m[a] == '@' && m[d] == '.'
    requires DigitsIn(x + m, 0, |x + m|) < 4
    ensures FormatMarkdownInline(x + m) == x + "<u>" + m + "</u>"
  {
    FormatPasses(x + m);
    NoStarUnchanged(x + m);
    EmailPassAtEnd(x, m, a, d);
    PhonePassEmailLine(x, m);
  }

  // ---------------------------------------------------------------------------
  // Phone numbers on given text

  predicate AllDigits(d: string) {
    forall c :: c in d ==> IsDigit(c)
  }

  /** Each named tail of the phone pattern is its first item before the next tail. */
  lemma PhoneSuffixes()
    ensures PhoneBody[0] == Maybe(Exactly('+')) && PhoneBody[1..] == Phone1
    ensures Phone1[0] == Between(Digit, 1, 3) && Phone1[1..] == Phone2
    ensures Phone2[0] == Maybe(Separator) && Phone2[1..] == Phone3
    ensures Phone3[0] == Maybe(Exactly('(')) && Phone3[1..] == Phone4
    ensures Phone4[0] == Between(Digit, 1, 4) && Phone4[1..] == Phone5
    ensures Phone5[0] == Maybe(Exactly(')')) && Phone5[1..] == Phone6
    ensures Phone6[0] == Maybe(Separator) && Phone6[1..] == Phone7
    ensures Phone7[0] == Between(Digit, 1, 4) && Phone7[1..] == Phone8
    ensures Phone8[0] == Maybe(Separator) && Phone8[1..] == Phone9
    ensures Phone9[0] == Between(Digit, 1, 9) && Phone9[1..] == []
  {
  }

  lemma DashedShape(d1: string, d2: string, d3: string, d4: string)
    ensures "+" + d1 + "-" + d2 + "-" + d3 + "-" + d4 == "+" + (d1 + ("-" + (d2 + ("-" + (d3 + ("-" + d4))))))
  {
  }

  lemma PhoneLastGroups(d3: string, d4: string)
    requires AllDigits(d3) && AllDigits(d4) && 1 <= |d3| <= 4 && 1 <= |d4| <= 9
    ensures var t := "-" + (d3 + ("-" + d4)); MatchSeq(Phone6, t, 0, "") == Some(|t|)
  {
    PhoneSuffixes();
    assert d3[0] in d3 && d4[0] in d4;
    var t8 := "-" + d4;
    var t7 := d3 + t8;
    assert MatchSeq(Phone9, d4, 0, "") == Some(|d4|) by {
      assert d4 + "" == d4;
      TakeGroup(Phone9, d4, "");
    }
    assert MatchSeq(Phone8, t8, 0, "") == Some(|t8|) by {
      TakeGroup(Phone8, "-", d4);
    }
    assert MatchSeq(Phone7, t7, 0, "") == Some(|t7|) by {
      TakeGroup(Phone7, d3, t8);
    }
    TakeGroup(Phone6, "-", t7);
  }

  lemma PhoneMiddleGroup(d2: string, t6: string)
    requires AllDigits(d2) && 1 <= |d2| <= 4 && t6 != [] && t6[0] == '-'
    requires MatchSeq(Phone6, t6, 0, "") == Some(|t6|)
    ensures var t := "-" + (d2 + t6); MatchSeq(Phone2, t, 0, "") == Some(|t|)
  {
    PhoneSuffixes();
    assert d2[0] in d2;
    var t4 := d2 + t6;
    assert MatchSeq(Phone5, t6, 0, "") == Some(|t6|) by {
      assert "" + t6 == t6;
      TakeGroup(Phone5, "", t6);
    }
    assert MatchSeq(Phone4, t4, 0, "") == Some(|t4|) by {
      TakeGroup(Phone4, d2, t6);
    }
    assert MatchSeq(Phone3, t4, 0, "") == Some(|t4|) by {
      assert "" + t4 == t4;
      TakeGroup(Phone3, "", t4);
    }
    TakeGroup(Phone2, "-", t4);
  }

  lemma PhoneFirstGroup(d1: string, t2: string)
    requires AllDigits(d1) && 1 <= |d1| <= 3 && t2 != [] && t2[0] == '-'
    requires MatchSeq(Phone2, t2, 0, "") == Some(|t2|)
    ensures var t := "+" + (d1 + t2); MatchSeq(PhoneBody, t, 0, "") == Some(|t|)
  {
    PhoneSuffixes();
    assert d1[0] in d1;
    var t1 := d1 + t2;
    assert MatchSeq(Phone1, t1, 0, "") == Some(|t1|) by {
      TakeGroup(Phone1, d1, t2);
    }
    TakeGroup(PhoneBody, "+", t1);
  }

  /**
   * `+d1-d2-d3-d4` with digit groups of length 1-3, 1-4, 1-4 and 1-9 is one
   * phone match, from the `+` to the end.
   */
  lemma PhoneDashedMatch(d1: string, d2: string, d3: string, d4: string)
    requires AllDigits(d1) && AllDigits(d2) && AllDigits(d3) && AllDigits(d4)
    requires 1 <= |d1| <= 3 && 1 <= |d2| <= 4 && 1 <= |d3| <= 4 && 1 <= |d4| <= 9
    ensures var m := "+" + d1 + "-" + d2 + "-" + d3 + "-" + d4; MatchAt(Phone, m, 0) == Some(|m|)
  {
    var t6 := "-" + (d3 + ("-" + d4));
    PhoneLastGroups(d3, d4);
    var t2 := "-" + (d2 + t6);
    PhoneMiddleGroup(d2, t6);
    PhoneFirstGroup(d1, t2);
    DashedShape(d1, d2, d3, d4);
    assert StartsWithAt("+" + (d1 + t2), 0, "");
  }

  lemma PhoneEndsOnDigit(e: char)
    requires IsDigit(e)
    ensures MatchSeq(Phone8, [e], 0, "") == Some(1)
    ensures MatchSeq(Phone8, "", 0, "").None?
  {
    PhoneSuffixes();
    assert MatchSeq(Phone9, [e], 0, "") == Some(1) by {
      assert [e] + "" == [e];
      TakeGroup(Phone9, [e], "");
    }
    assert "" + [e] == [e];
    TakeGroup(Phone8, "", [e]);
    assert MatchSeq(Phone9, "", 0, "").None?;
    GreedyFail(Phone8, "", 0, "");
  }

  /**
   * The third group of digits backtracks: taking all four digits of `y`
   * leaves none for the last group, so it gives one back.
   */
  lemma PhoneGivesBackDigit(y: string)
    requires AllDigits(y) && |y| == 4
    ensures MatchSeq(Phone7, y, 0, "") == Some(4)
  {
    LastDigitLeft(y);
    NoDigitLeft(y);
    ThirdGroupAvail(y);
    GreedyTake(Phone7, y, 0, "", 3, 4);
  }

  lemma LastDigitLeft(y: string)
    requires AllDigits(y) && |y| == 4
    ensures MatchSeq(Phone7[1..], y, 3, "") == Some(4)
  {
    assert y[3] in y;
    PhoneEndsOnDigit(y[3]);
    MatchSeqAtSuffix(Phone8, y, 3, "");
    assert y[3..] == [y[3]];
    assert Phone7[1..] == Phone8;
  }

  lemma NoDigitLeft(y: string)
    requires |y| == 4 && IsDigit(y[3])
    ensures MatchSeq(Phone7[1..], y, 4, "").None?
  {
    PhoneEndsOnDigit(y[3]);
    MatchSeqAtSuffix(Phone8, y, 4, "");
    assert y[4..] == "";
    assert Phone7[1..] == Phone8;
  }

  lemma ThirdGroupAvail(y: string)
    requires AllDigits(y) && |y| == 4
    ensures Phone7 != [] && Phone7[0].greedy && Phone7[0].min == 1
    ensures Avail(Phone7[0], y, 0) == 4
  {
    assert Phone7[0] == Between(Digit, 1, 4);
    assert y + "" == y;
    AvailGroup(Phone7[0], y, "");
  }

  lemma YearSecondHalf(y: string)
    requires AllDigits(y) && |y| == 4
    ensures MatchSeq(Phone5, "-" + y, 0, "") == Some(5)
  {
    assert y[0] in y;
    PhoneGivesBackDigit(y);
    DashBeforeGroup(y);
    NoCloseBracket("-" + y);
  }

  /** The optional separator takes a `-` in front of the third and fourth groups. */
  lemma DashBeforeGroup(y: string)
    requires y != [] && IsDigit(y[0]) && MatchSeq(Phone7, y, 0, "") == Some(|y|)
    ensures MatchSeq(Phone6, "-" + y, 0, "") == Some(1 + |y|)
  {
    PhoneSuffixes();
    TakeGroup(Phone6, "-", y);
  }

  /** The optional `)` takes nothing from a text that starts with `-`. */
  lemma NoCloseBracket(t: string)
    requires t != [] && t[0] == '-' && MatchSeq(Phone6, t, 0, "") == Some(|t|)
    ensures MatchSeq(Phone5, t, 0, "") == Some(|t|)
  {
    PhoneSuffixes();
    assert "" + t == t;
    TakeGroup(Phone5, "", t);
  }

  /** A digit is neither a separator nor a bracket. */
  lemma DigitIsNoMark(d: char)
    requires IsDigit(d)
    ensures !InClass(Separator, d) && !InClass(Exactly('('), d) && !InClass(Exactly(')'), d) && !InClass(Exactly('+'), d)
  {
  }

  lemma YearMiddle(d: char, t5: string)
    requires IsDigit(d) && t5 != [] && t5[0] == '-'
    requires MatchSeq(Phone5, t5, 0, "") == Some(|t5|)
    ensures MatchSeq(Phone2, [d] + t5, 0, "") == Some(1 + |t5|)
  {
    var t4 := [d] + t5;
    assert MatchSeq(Phone4, t4, 0, "") == Some(|t4|) by {
      PhoneSuffixes();
      TakeGroup(Phone4, [d], t5);
    }
    assert t4[0] == d;
    NoOpenBracket(t4);
    NoFirstSeparator(t4);
  }

  lemma NoOpenBracket(t: string)
    requires t != [] && IsDigit(t[0])
    requires MatchSeq(Phone4, t, 0, "") == Some(|t|)
    ensures MatchSeq(Phone3, t, 0, "") == Some(|t|)
  {
    DigitIsNoMark(t[0]);
    assert "" + t == t;
    PhoneSuffixes();
    TakeGroup(Phone3, "", t);
  }

  lemma NoFirstSeparator(t: string)
    requires t != [] && IsDigit(t[0])
    requires MatchSeq(Phone3, t, 0, "") == Some(|t|)
    ensures MatchSeq(Phone2, t, 0, "") == Some(|t|)
  {
    DigitIsNoMark(t[0]);
    assert "" + t == t;
    PhoneSuffixes();
    TakeGroup(Phone2, "", t);
  }

  lemma YearFirstHalf(x: string, t5: string)
    requires AllDigits(x) && |x| == 4 && t5 != [] && t5[0] == '-'
    requires MatchSeq(Phone5, t5, 0, "") == Some(|t5|)
    ensures MatchSeq(PhoneBody, x + t5, 0, "") == Some(4 + |t5|)
  {
    assert x[0] in x && x[3] in x;
    var t4 := [x[3]] + t5;
    YearMiddle(x[3], t5);
    var t1 := x[..3] + t4;
    assert AllDigits(x[..3]) by { assert forall c :: c in x[..3] ==> c in x; }
    YearLeadingDigits(x[..3], t4);
    assert t1[0] == x[0];
    NoLeadingPlus(t1);
    SplitFourth(x, t5);
  }

  lemma YearLeadingDigits(x: string, t4: string)
    requires AllDigits(x) && |x| == 3
    requires MatchSeq(Phone2, t4, 0, "") == Some(|t4|)
    ensures MatchSeq(Phone1, x + t4, 0, "") == Some(|x + t4|)
  {
    PhoneSuffixes();
    TakeGroup(Phone1, x, t4);
  }

  /** Without a leading `+` the optional sign takes nothing. */
  lemma NoLeadingPlus(t: string)
    requires t != [] && IsDigit(t[0])
    requires MatchSeq(Phone1, t, 0, "") == Some(|t|)
    ensures MatchSeq(PhoneBody, t, 0, "") == Some(|t|)
  {
    assert "" + t == t;
    PhoneSuffixes();
    TakeGroup(PhoneBody, "", t);
  }

  lemma SplitFourth(x: string, t: string)
    requires |x| == 4
    ensures x + t == x[..3] + ([x[3]] + t)
  {
    assert x == x[..3] + [x[3]];
  }

  /**
   * The loose pattern also takes a range of two four-digit numbers such as
   * years, `2019-2023`, as one phone number.
   */
  lemma PhoneTakesYearRange(x: string, y: string)
    requires AllDigits(x) && AllDigits(y) && |x| == 4 && |y| == 4
    ensures MatchAt(Phone, x + "-" + y, 0) == Some(9)
  {
    YearSecondHalf(y);
    YearFirstHalf(x, "-" + y);
    assert x + "-" + y == x + ("-" + y);
    assert StartsWithAt(x + "-" + y, 0, "");
  }

  lemma PhonePassAtEnd(x: string, m: string)
    requires '+' !in x && DigitsIn(x, 0, |x|) == 0
    requires MatchAt(Phone, m, 0) == Some(|m|)
    ensures Sub(Phone, x + m) == x + "<u>" + m + "</u>"
  {
    assert Sub(Phone, m) == "<u>" + m + "</u>" by {
      PhoneFacts();
      WholeMatch(Phone, m);
    }
    PhoneFreePrefix(x, m);
    AppendThree(x, "<u>", m, "</u>");
  }

  lemma AppendThree(a: string, b: string, c: string, d: string)
    ensures a + (b + c + d) == a + b + c + d
  {
  }

  /**
   * A line ending in a phone number `m` that the pattern takes whole, after
   * text `x` with no digit and no `+`: the number is underlined and nothing
   * else changes.
   */
  lemma FormatPhoneAtEnd(x: string, m: string)
    requires '*' !in x + m && '@' !in x + m
    requires '+' !in x && DigitsIn(x, 0, |x|) == 0
    requires MatchAt(Phone, m, 0) == Some(|m|)
    ensures FormatMarkdownInline(x + m) == x + "<u>" + m + "</u>"
  {
    FormatPasses(x + m);
    NoStarUnchanged(x + m);
    NoAtUnchanged(x + m);
    PhonePassAtEnd(x, m);
  }

  lemma DashedChars(d1: string, d2: string, d3: string, d4: string)
    requires AllDigits(d1) && AllDigits(d2) && AllDigits(d3) && AllDigits(d4)
    ensures var m := "+" + d1 + "-" + d2 + "-" + d3 + "-" + d4; '*' !in m && '@' !in m
  {
  }

  /** An international number written `+d1-d2-d3-d4` is underlined whole. */
  lemma FormatDashedPhone(x: string, d1: string, d2: string, d3: string, d4: string)
    requires '*' !in x && '@' !in x && '+' !in x && DigitsIn(x, 0, |x|) == 0
    requires AllDigits(d1) && AllDigits(d2) && AllDigits(d3) && AllDigits(d4)
    requires 1 <= |d1| <= 3 && 1 <= |d2| <= 4 && 1 <= |d3| <= 4 && 1 <= |d4| <= 9
    ensures var m := "+" + d1 + "-" + d2 + "-" + d3 + "-" + d4;
      FormatMarkdownInline(x + m) == x + "<u>" + m + "</u>"
  {
    var m := "+" + d1 + "-" + d2 + "-" + d3 + "-" + d4;
    PhoneDashedMatch(d1, d2, d3, d4);
    DashedChars(d1, d2, d3, d4);
    assert '*' !in x + m && '@' !in x + m;
    FormatPhoneAtEnd(x, m);
  }

  lemma RangeChars(x: string, y: string)
    requires AllDigits(x) && AllDigits(y)
    ensures var m := x + "-" + y; '*' !in m && '@' !in m
  {
  }

  /**
   * A year range such as `2019-2023` on its own is taken for a phone number
   * and underlined.
   */
  lemma FormatYearRange(x: string, y: string)
    requires AllDigits(x) && AllDigits(y) && |x| == 4 && |y| == 4
    ensures var m := x + "-" + y; FormatMarkdownInline(m) == "<u>" + m + "</u>"
  {
    PhoneTakesYearRange(x, y);
    RangeChars(x, y);
    FormatWholePhone(x + "-" + y);
  }

  lemma FormatWholePhone(m: string)
    requires '*' !in m && '@' !in m
    requires MatchAt(Phone, m, 0) == Some(|m|)
    ensures FormatMarkdownInline(m) == "<u>" + m + "</u>"
  {
    FormatPasses(m);
    NoStarUnchanged(m);
    NoAtUnchanged(m);
    PhoneFacts();
    WholeMatch(Phone, m);
  }

  // ---------------------------------------------------------------------------
  // Worked examples

  lemma BoldExample()
    ensures FormatMarkdownInline("**bold**") == "<b>bold</b>"
  {
    var w := "bold";
    assert "**bold**" == "**" + w + "**";
    assert "<b>" + w + "</b>" == "<b>bold</b>";
    NoDigits(w, 0);
    FormatBoldWord(w);
  }

  lemma ItalicExample()
    ensures FormatMarkdownInline("*italic*") == "<i>italic</i>"
  {
    var w := "italic";
    assert "*italic*" == "*" + w + "*";
    assert "<i>" + w + "</i>" == "<i>italic</i>";
    NoDigits(w, 0);
    FormatItalicWord(w);
  }

  /** `**` alone is an empty italic span, not a bold one. */
  lemma DoubleStarExample()
    ensures FormatMarkdownInline("**") == "<i></i>"
  {
    assert "**" == "*" + "" + "*" && "<i></i>" == "<i>" + "" + "</i>";
    FormatItalicWord("");
  }

  /** Bold runs first, so `**a**` and `*b*` become two separate spans. */
  lemma BoldAndItalicExample()
    ensures FormatMarkdownInline("**a** and *b*") == "<b>a</b> and <i>b</i>"
  {
    var x, a, mid, b := "", "a", " and ", "b";
    assert "**a** and *b*" == x + "**" + a + "**" + mid + "*" + b + "*";
    assert "<b>a</b> and <i>b</i>" == x + "<b>" + a + "</b>" + mid + "<i>" + b + "</i>";
    assert x + a + mid + b == "a and b";
    NoDigits("a and b", 0);
    FormatBoldThenItalic(x, a, mid, b);
  }

  lemma EmailExample()
    ensures FormatMarkdownInline("contact me at a@b.com") == "contact me at <u>a@b.com</u>"
  {
    var x, m := "contact me at ", "a@b.com";
    assert "contact me at a@b.com" == x + m;
    assert "contact me at <u>a@b.com</u>" == x + "<u>" + m + "</u>";
    assert m[1] == '@' && m[3] == '.';
    NoDigits(x + m, 0);
    FormatEmailAtEnd(x, m, 1, 3);
  }

  lemma PhoneExample()
    ensures FormatMarkdownInline("call +1-555-123-4567") == "call <u>+1-555-123-4567</u>"
  {
    var x, d1, d2, d3, d4 := "call ", "1", "555", "123", "4567";
    assert "call +1-555-123-4567" == x + ("+" + d1 + "-" + d2 + "-" + d3 + "-" + d4);
    assert "call <u>+1-555-123-4567</u>" == x + "<u>" + ("+" + d1 + "-" + d2 + "-" + d3 + "-" + d4) + "</u>";
    NoDigits(x, 0);
    FormatDashedPhone(x, d1, d2, d3, d4);
  }

  lemma YearRangeExample()
    ensures FormatMarkdownInline("2019-2023") == "<u>2019-2023</u>"
  {
    var x, y := "2019", "2023";
    assert "2019-2023" == x + "-" + y;
    assert "<u>2019-2023</u>" == "<u>" + (x + "-" + y) + "</u>";
    FormatYearRange(x, y);
  }
}
