/**
 * End-to-end properties of `processLaTeXContent`: the fallback without a
 * document, what plain text becomes, and a heading followed by bold text.
 */
module PreviewPipeline {
  import opened Wrappers
  import opened Text
  import opened Rewrite
  import opened LatexPreview
  import opened PreviewCommands
  import opened PreviewLists
  import opened PreviewMath
  import opened PreviewBlocks

  /** A LaTeX source that is only a document environment around `body`. */
  function Document(body: string): string {
    BEGIN_DOCUMENT + body + END_DOCUMENT
  }

  /** Without a `\begin{document}` .. `\end{document}` pair the converter answers with the fixed hint. */
  lemma NoDocumentHint(latex: string, today: string, render: Renderer)
    requires forall i: nat, j: nat :: !Delimits(latex, i, j)
    ensures ProcessLaTeXContent(latex, today, render) == NO_DOCUMENT
  {
  }

  /** Every backslash in `x` is followed by a character other than `c`. */
  predicate NoCommandStartingWith(x: string, c: char) {
    forall k :: 0 <= k < |x| - 1 && x[k] == '\\' ==> x[k + 1] != c
  }

  /** A closing tag `\c...` cannot occur early in text whose commands never start with `c`. */
  lemma NotClosedEarly(x: string, close: string)
    requires |close| >= 2 && close[0] == '\\' && close[1] != '\\'
    requires NoCommandStartingWith(x, close[1])
    ensures ClosesAtEnd(x, close)
  {
    var y := x + close;
    forall k | 0 <= k < |x|
      ensures !OccursAt(y, close, k)
    {
      assert y[k] == x[k] && y[k..][0] == y[k] && y[k..][1] == y[k + 1];
      assert k + 1 < |x| ==> y[k + 1] == x[k + 1];
      assert k + 1 == |x| ==> y[k + 1] == close[0];
    }
    assert y[|x|..] == close;
    IndexOfIs(y, close, 0, |x|);
  }

  /** A command `\c...` does not occur in text whose commands never start with `c`. */
  lemma NotContained(x: string, pat: string)
    requires |pat| >= 2 && pat[0] == '\\'
    requires NoCommandStartingWith(x, pat[1])
    ensures !Contains(x, pat)
  {
    forall k: nat | k < |x|
      ensures !OccursAt(x, pat, k)
    {
      assert x[k..][0] == x[k];
      assert k + 1 < |x| ==> x[k..][1] == x[k + 1];
    }
  }

  /** The body of `Document(body)` is found when `body` itself holds no `\end{document}`. */
  lemma DocumentFound(body: string)
    requires ClosesAtEnd(body, END_DOCUMENT)
    ensures DocumentSpan(Document(body)) == Some((0, |BEGIN_DOCUMENT| + |body|))
    ensures Document(body)[|BEGIN_DOCUMENT|..|BEGIN_DOCUMENT| + |body|] == body
  {
    var x := Document(body);
    assert x == BEGIN_DOCUMENT + body + END_DOCUMENT + [];
    ClosingTagFound(BEGIN_DOCUMENT, body, END_DOCUMENT, []);
    assert BEGIN_DOCUMENT <= x[0..];
  }

  /** The body the stages run on, for a source that is one document environment. */
  lemma ConvertDocument(body: string, today: string, render: Renderer, title: string)
    requires ClosesAtEnd(body, END_DOCUMENT)
    requires title == TitleBlock(Metadata(Document(body), "\\title"), Metadata(Document(body), "\\author"), Metadata(Document(body), "\\date"), today)
    ensures ProcessLaTeXContent(Document(body), today, render)
         == Paragraphs(LineBreaks(Math(Lists(TextFormatting(Headings(ExpandMaketitle(Trim(body), title)))), render)))
  {
    DocumentFound(body);
  }

  /** Text without a backslash has no `\maketitle` to expand. */
  lemma NoMaketitleWithoutBackslash(u: string, block: string)
    requires '\\' !in u
    ensures ExpandMaketitle(u, block) == u
  {
    NotContained(u, MAKETITLE);
  }

  /** Text without a backslash or a dollar sign passes every rewrite stage unchanged. */
  lemma RewritesKeepPlainText(u: string, render: Renderer)
    requires '\\' !in u && '$' !in u
    ensures LineBreaks(Math(Lists(TextFormatting(Headings(u))), render)) == u
  {
    PlainTextUnchanged(u);
    RewritesKeepPlainTextAfterFormatting(u, render);
  }

  /** A body of plain text (no commands, no math) goes straight to the paragraph stage, trimmed. */
  lemma PlainBody(t: string, today: string, render: Renderer)
    requires '\\' !in t && '$' !in t
    ensures ProcessLaTeXContent(Document(t), today, render) == Paragraphs(Trim(t))
  {
    NotClosedEarly(t, END_DOCUMENT);
    var title := TitleBlock(Metadata(Document(t), "\\title"), Metadata(Document(t), "\\author"), Metadata(Document(t), "\\date"), today);
    ConvertDocument(t, today, render, title);
    TrimKeepsAbsent(t, '\\');
    TrimKeepsAbsent(t, '$');
    NoMaketitleWithoutBackslash(Trim(t), title);
    RewritesKeepPlainText(Trim(t), render);
  }

  /** An empty or all-white-space document renders as nothing. */
  lemma BlankDocument(t: string, today: string, render: Renderer)
    requires IsBlank(t)
    ensures ProcessLaTeXContent(Document(t), today, render) == ""
  {
    assert forall k :: 0 <= k < |t| ==> t[k] != '\\' && t[k] != '$';
    PlainBody(t, today, render);
    BlankRendersEmpty(Trim(t));
  }

  /** A heading argument or bold text: one line, no command, no math, no brace. */
  predicate Plain(a: string) {
    |a| > 0 && '\\' !in a && '}' !in a && '$' !in a && '\n' !in a
  }

  lemma HeadingThenBoldCommands(a: string, b: string)
    requires Plain(a) && Plain(b)
    ensures NoCommandStartingWith(Command("\\section", a) + Command("\\textbf", b), 'e')
    ensures NoCommandStartingWith(Command("\\section", a) + Command("\\textbf", b), 'm')
  {
    var c1 := Command("\\section", a);
    var c2 := Command("\\textbf", b);
    var x := c1 + c2;
    assert forall k :: 0 <= k < |c1| ==> x[k] == c1[k];
    assert forall k :: |c1| <= k < |x| ==> x[k] == c2[k - |c1|];
    assert forall k :: 1 <= k < |c1| ==> c1[k] != '\\' by {
      assert forall k :: 9 <= k < 9 + |a| ==> c1[k] == a[k - 9];
    }
    assert forall k :: 1 <= k < |c2| ==> c2[k] != '\\' by {
      assert forall k :: 8 <= k < 8 + |b| ==> c2[k] == b[k - 8];
    }
    assert x[1] == 's' && x[|c1| + 1] == 't';
  }

  lemma HeadingThenBoldHeadings(a: string, b: string)
    requires Plain(a) && Plain(b)
    ensures Headings(Command("\\section", a) + Command("\\textbf", b)) == CommandOutput("<h2>", a, "</h2>") + Command("\\textbf", b)
  {
    SectionThenBold(a, b);
    HeadingPlain(a);
    LaterHeadingPassesKeep(CommandOutput("<h2>", a, "</h2>"), b);
  }

  /** The `\section` pass turns the heading into `<h2>` and leaves the bold command after it. */
  lemma SectionThenBold(a: string, b: string)
    requires Plain(a) && Plain(b)
    ensures GlobalReplace(Command("\\section", a) + Command("\\textbf", b), SECTION) == CommandOutput("<h2>", a, "</h2>") + Command("\\textbf", b)
  {
    CommandLeadsWithBackslash("\\section", "<h2>", "</h2>");
    OtherCommandSilent("\\section", "<h2>", "</h2>", "\\textbf", b, 1);
    BoldCommandKept(b, SECTION);
    CommandReplaced("\\section", "<h2>", "</h2>", a, Command("\\textbf", b));
  }

  /** The `\subsection` and `\subsubsection` passes leave backslash-free text and `\textbf{b}` alone. */
  lemma LaterHeadingPassesKeep(h: string, b: string)
    requires '\\' !in h && Plain(b)
    ensures GlobalReplace(GlobalReplace(h + Command("\\textbf", b), SUBSECTION), SUBSUBSECTION) == h + Command("\\textbf", b)
  {
    CommandLeadsWithBackslash("\\subsection", "<h3>", "</h3>");
    OtherCommandSilent("\\subsection", "<h3>", "</h3>", "\\textbf", b, 1);
    PlainThenBoldKept(h, b, SUBSECTION);
    CommandLeadsWithBackslash("\\subsubsection", "<h4>", "</h4>");
    OtherCommandSilent("\\subsubsection", "<h4>", "</h4>", "\\textbf", b, 1);
    PlainThenBoldKept(h, b, SUBSUBSECTION);
  }

  /** A pass that only fires at a backslash and not at `\textbf{b}` leaves `\textbf{b}` alone. */
  lemma BoldCommandKept(b: string, rule: Rule)
    requires Plain(b)
    requires LeadsWith(rule, '\\') && !Fires(rule, Command("\\textbf", b))
    ensures GlobalReplace(Command("\\textbf", b), rule) == Command("\\textbf", b)
  {
    assert '\\' !in "\\textbf"[1..];
    OtherCommandCopied("\\textbf", rule, b);
  }

  /** Such a pass also leaves backslash-free text in front of `\textbf{b}` alone. */
  lemma PlainThenBoldKept(h: string, b: string, rule: Rule)
    requires '\\' !in h && Plain(b)
    requires LeadsWith(rule, '\\') && !Fires(rule, Command("\\textbf", b))
    ensures GlobalReplace(h + Command("\\textbf", b), rule) == h + Command("\\textbf", b)
  {
    BoldCommandKept(b, rule);
    CopiesTextWithoutLead(h, Command("\\textbf", b), rule, '\\');
  }

  lemma HeadingPlain(a: string)
    requires '\\' !in a
    ensures '\\' !in CommandOutput("<h2>", a, "</h2>")
  {
  }

  lemma BoldPlain(b: string)
    requires '\\' !in b
    ensures '\\' !in CommandOutput("<strong>", b, "</strong>")
  {
  }

  /** Text formatting turns the bold command after backslash-free text into `<strong>`. */
  lemma BoldAfterText(h: string, b: string)
    requires '\\' !in h && Plain(b)
    ensures TextFormatting(h + Command("\\textbf", b)) == h + CommandOutput("<strong>", b, "</strong>")
  {
    CommandLeadsWithBackslash("\\textbf", "<strong>", "</strong>");
    CopiesTextWithoutLead(h, Command("\\textbf", b), TEXTBF, '\\');
    OwnCommand("\\textbf", "<strong>", "</strong>", b);
    BoldPlain(b);
    FormattingOutputKept(h + CommandOutput("<strong>", b, "</strong>"));
  }

  lemma FormattingOutputKept(u: string)
    requires '\\' !in u
    ensures GlobalReplace(u, TEXTIT) == u && GlobalReplace(u, UNDERLINE) == u
  {
    CommandLeadsWithBackslash("\\textit", "<em>", "</em>");
    CommandLeadsWithBackslash("\\underline", "<u>", "</u>");
    assert u + [] == u;
    CopiesTextWithoutLead(u, [], TEXTIT, '\\');
    CopiesTextWithoutLead(u, [], UNDERLINE, '\\');
    assert GlobalReplace([], TEXTIT) == [] && GlobalReplace([], UNDERLINE) == [];
  }

  /** The rewrite stages turn the heading and the bold command into their elements. */
  lemma HeadingThenBoldStages(a: string, b: string, render: Renderer)
    requires Plain(a) && Plain(b)
    ensures LineBreaks(Math(Lists(TextFormatting(Headings(Command("\\section", a) + Command("\\textbf", b)))), render))
         == CommandOutput("<h2>", a, "</h2>") + CommandOutput("<strong>", b, "</strong>")
  {
    HeadingThenBoldHeadings(a, b);

    BoldAfterText(CommandOutput("<h2>", a, "</h2>"), b);
    HeadingThenBoldLine(a, b);
    RewritesKeepPlainTextAfterFormatting(CommandOutput("<h2>", a, "</h2>") + CommandOutput("<strong>", b, "</strong>"), render);
  }

  /** One line that starts with a heading tag is kept as it is by the paragraph stage. */
  lemma HeadingLineKept(out: string)
    requires "<h" <= out && '\n' !in out && out[|out| - 1] == '>'
    ensures Paragraphs(out) == out
  {
    forall k | 0 <= k < |out|
      ensures SeparatorLen(out[k..]).None?
    {
      assert out[k..][0] == out[k];
    }
    assert out[0] == '<';
    SingleBlock(out);
    TrimUntouched(out);
  }

  /**
   * A section heading followed by bold text ends up as the heading element
   * directly followed by the bold element: the block starts with `<h`, so the
   * paragraph stage does not wrap the bold text in a `<p>`.
   */
  lemma HeadingThenBoldLine(a: string, b: string)
    requires Plain(a) && Plain(b)
    ensures var out := CommandOutput("<h2>", a, "</h2>") + CommandOutput("<strong>", b, "</strong>");
      "<h" <= out && out[|out| - 1] == '>' && '\n' !in out && '\\' !in out && '$' !in out
  {
  }

  lemma EndDocumentAbsent(body: string)
    requires NoCommandStartingWith(body, 'e')
    ensures ClosesAtEnd(body, END_DOCUMENT)
  {
    assert END_DOCUMENT[0] == '\\' && END_DOCUMENT[1] == 'e';
    NotClosedEarly(body, END_DOCUMENT);
  }

  lemma MaketitleAbsent(body: string)
    requires NoCommandStartingWith(body, 'm')
    ensures !Contains(body, MAKETITLE)
  {
    assert MAKETITLE[0] == '\\' && MAKETITLE[1] == 'm';
    NotContained(body, MAKETITLE);
  }

  lemma HeadingThenBold(a: string, b: string, today: string, render: Renderer)
    requires Plain(a) && Plain(b)
    ensures ProcessLaTeXContent(Document(Command("\\section", a) + Command("\\textbf", b)), today, render)
         == CommandOutput("<h2>", a, "</h2>") + CommandOutput("<strong>", b, "</strong>")
  {
    var body := Command("\\section", a) + Command("\\textbf", b);
    HeadingThenBoldCommands(a, b);
    EndDocumentAbsent(body);
    var title := TitleBlock(Metadata(Document(body), "\\title"), Metadata(Document(body), "\\author"), Metadata(Document(body), "\\date"), today);
    ConvertDocument(body, today, render, title);
    assert body[0] == '\\' && body[|body| - 1] == '}';
    TrimUntouched(body);
    MaketitleAbsent(body);
    HeadingThenBoldStages(a, b, render);
    HeadingThenBoldLine(a, b);
    HeadingLineKept(CommandOutput("<h2>", a, "</h2>") + CommandOutput("<strong>", b, "</strong>"));
  }

  /** The stages after text formatting leave text without a backslash or dollar sign unchanged. */
  lemma RewritesKeepPlainTextAfterFormatting(u: string, render: Renderer)
    requires '\\' !in u && '$' !in u
    ensures LineBreaks(Math(Lists(u), render)) == u
  {
    ListRuleLeadsWithBackslash("itemize", "ul");
    ListRuleLeadsWithBackslash("enumerate", "ol");
    assert u + [] == u;
    CopiesTextWithoutLead(u, [], ITEMIZE, '\\');
    CopiesTextWithoutLead(u, [], ENUMERATE, '\\');
    assert GlobalReplace([], ITEMIZE) == [] && GlobalReplace([], ENUMERATE) == [];
    TextWithoutDollarUnchanged(u, render);
    BreakLeadsWithBackslash();
    CopiesTextWithoutLead(u, [], BREAK, '\\');
    assert GlobalReplace([], BREAK) == [];
  }

  /** Without `$` in the title block, every `\maketitle` is replaced by the block: split at it, join with the block. */
  lemma MaketitleReplaced(content: string, block: string)
    requires '$' !in block
    ensures ExpandMaketitle(content, block) == JoinWith(SplitOn(content, MAKETITLE), block)
  {
    if Contains(content, MAKETITLE) {
      TemplateWithoutDollarIsLiteral(content, MAKETITLE, block, 0);
      assert content[0..] == content;
      LiteralReplaceIsSplitJoin(content, MAKETITLE, block);
    } else {
      assert SplitOn(content, MAKETITLE) == [content];
    }
  }

  /** Without title, author or date the title block is empty, so `\maketitle` is simply dropped. */
  lemma MaketitleWithoutMetadata(content: string, today: string)
    ensures ExpandMaketitle(content, TitleBlock(None, None, None, today)) == JoinWith(SplitOn(content, MAKETITLE), "")
  {
    assert TitleBlock(None, None, None, today) == "";
    MaketitleReplaced(content, "");
  }

  /** `\date{\today}` shows the date the caller supplies; any other date is shown as written. */
  lemma TodayOnlyForTodayCommand(d: string, today1: string, today2: string)
    ensures TitleBlock(None, None, Some(d), today1) == TitleBlock(None, None, Some(d), today2) <==> d != TODAY || today1 == today2
  {
    var p := "<p class=\"date\">";
    if d == TODAY {
      assert TitleBlock(None, None, Some(d), today1) == p + today1 + "</p>";
      assert TitleBlock(None, None, Some(d), today2) == p + today2 + "</p>";
      SameFrameSameInside(p, today1, today2, "</p>");
    }
  }

  lemma SameFrameSameInside(p: string, x: string, y: string, q: string)
    ensures p + x + q == p + y + q <==> x == y
  {
    if p + x + q == p + y + q {
      assert x == (p + x + q)[|p|..|p| + |x|];
      assert y == (p + y + q)[|p|..|p| + |y|];
    }
  }

  /**
   * A `$$` in the title block is a replacement pattern for a single `$`, so a
   * display formula in the title reaches the math stage as an inline formula.
   */
  lemma TitleDollarsCollapse(m: string)
    requires '$' !in m
    ensures ExpandMaketitle(MAKETITLE, "$$" + m + "$$") == "$" + m + "$"
  {
    var t := "$$" + m + "$$";
    var before: string := [];
    var after: string := [];
    assert MAKETITLE[0..] == MAKETITLE;
    assert IndexOf(MAKETITLE, MAKETITLE, 0) == Some(0);
    assert ReplaceAllTemplate(MAKETITLE, MAKETITLE, t, |MAKETITLE|) == [];
    assert MAKETITLE[..0] == before && MAKETITLE[|MAKETITLE|..] == after;
    assert ReplaceAllTemplate(MAKETITLE, MAKETITLE, t, 0) == Substitute(t, MAKETITLE, before, after);
    CollapseDollars(m, MAKETITLE, before, after);
  }

  lemma CollapseDollars(m: string, matched: string, before: string, after: string)
    requires '$' !in m
    ensures Substitute("$$" + m + "$$", matched, before, after) == "$" + m + "$"
  {
    var t := "$$" + m + "$$";
    assert t[2..] == m + "$$";
    SubstituteWithoutDollarPrefix(m, "$$", matched, before, after);
    assert "$$"[2..] == [];
  }

  lemma {:induction false} SubstituteWithoutDollarPrefix(u: string, v: string, matched: string, before: string, after: string)
    requires '$' !in u
    ensures Substitute(u + v, matched, before, after) == u + Substitute(v, matched, before, after)
    decreases |u|
  {
    if u != [] {
      assert (u + v)[0] == u[0] && (u + v)[1..] == u[1..] + v;
      SubstituteWithoutDollarPrefix(u[1..], v, matched, before, after);
    } else {
      assert u + v == v;
    }
  }

  /**
   * When the document body has no `\maketitle`, the result is the stages
   * applied to the trimmed body alone: the title, author and date, wherever
   * they stand in the source, and the date supplied play no part.
   */
  lemma MetadataOnlyThroughMaketitle(latex: string, i: nat, j: nat, today: string, render: Renderer)
    requires DocumentSpan(latex) == Some((i, j))
    requires !Contains(Trim(latex[i + |BEGIN_DOCUMENT|..j]), MAKETITLE)
    ensures ProcessLaTeXContent(latex, today, render)
         == Paragraphs(LineBreaks(Math(Lists(TextFormatting(Headings(Trim(latex[i + |BEGIN_DOCUMENT|..j])))), render)))
  {
  }
}
