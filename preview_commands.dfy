/**
 * Properties of the one-argument command stages of the converter: metadata
 * lookup, headings and text formatting.
 */
module PreviewCommands {
  import opened Wrappers
  import opened Text
  import opened Rewrite
  import opened LatexPreview

  /** A command rule fires only where the text starts with the command's backslash. */
  lemma CommandLeadsWithBackslash(name: string, open: string, close: string)
    requires name != [] && name[0] == '\\'
    ensures LeadsWith(CommandRule(name, open, close), '\\')
  {
    forall x | Fires(CommandRule(name, open, close), x)
      ensures x[0] == '\\'
    {
      assert CommandArg(x, name).Some?;
      assert (name + "{")[0] == '\\';
    }
  }

  /** `name{a}` is replaced by `open + a + close` and the scan goes on after the closing brace. */
  lemma CommandReplaced(name: string, open: string, close: string, a: string, rest: string)
    requires |a| > 0 && '}' !in a
    ensures GlobalReplace(Command(name, a) + rest, CommandRule(name, open, close))
         == open + a + close + GlobalReplace(rest, CommandRule(name, open, close))
  {
    var p := Command(name, a);
    CommandShapeIsPrefix(p + rest, name, a);
    ReplacesLeadingMatch(p, rest, CommandRule(name, open, close), open + a + close);
  }

  /** The argument ends at the FIRST closing brace: `name{a}b}` captures `a` and leaves `b}` behind. */
  lemma NestedBracesTruncate(name: string, open: string, close: string, a: string, b: string)
    requires |a| > 0 && '}' !in a
    ensures GlobalReplace(Command(name, a) + b + "}", CommandRule(name, open, close))
         == open + a + close + GlobalReplace(b + "}", CommandRule(name, open, close))
  {
    CommandReplaced(name, open, close, a, b + "}");
    assert Command(name, a) + b + "}" == Command(name, a) + (b + "}");
  }

  /** `name{}` has no argument to capture and is kept verbatim. */
  lemma EmptyArgumentKept(name: string, open: string, close: string, rest: string)
    requires name != [] && name[0] == '\\' && '\\' !in name[1..]
    ensures GlobalReplace(name + "{}" + rest, CommandRule(name, open, close))
         == name + "{}" + GlobalReplace(rest, CommandRule(name, open, close))
  {
    var rule := CommandRule(name, open, close);
    var u := name + "{}";
    CommandLeadsWithBackslash(name, open, close);
    var x := u + rest;
    assert x[|name| + 1] == '}';
    assert IndexOfChar(x, '}', |name| + 1) == Some(|name| + 1);
    assert name + "{" <= x;
    forall k | 1 <= k < |u|
      ensures x[k..][0] != '\\'
    {
      if k < |name| {
        assert x[k] == name[1..][k - 1];
      }
    }
    assert Quiet(rule, x, |u|);
    CopiesQuietPrefix(u, rest, rule);
  }

  /** Text without a backslash goes through headings and text formatting unchanged. */
  lemma PlainTextUnchanged(u: string)
    requires '\\' !in u
    ensures Headings(u) == u
    ensures TextFormatting(u) == u
  {
    assert u + [] == u;
    CommandLeadsWithBackslash("\\section", "<h2>", "</h2>");
    CommandLeadsWithBackslash("\\subsection", "<h3>", "</h3>");
    CommandLeadsWithBackslash("\\subsubsection", "<h4>", "</h4>");
    CommandLeadsWithBackslash("\\textbf", "<strong>", "</strong>");
    CommandLeadsWithBackslash("\\textit", "<em>", "</em>");
    CommandLeadsWithBackslash("\\underline", "<u>", "</u>");
    CopiesTextWithoutLead(u, [], SECTION, '\\');
    CopiesTextWithoutLead(u, [], SUBSECTION, '\\');
    CopiesTextWithoutLead(u, [], SUBSUBSECTION, '\\');
    CopiesTextWithoutLead(u, [], TEXTBF, '\\');
    CopiesTextWithoutLead(u, [], TEXTIT, '\\');
    CopiesTextWithoutLead(u, [], UNDERLINE, '\\');
  }

  /** A command rule is silent on another command whose name differs within the first `|name|` characters. */
  lemma OtherCommandSilent(name: string, open: string, close: string, other: string, a: string, i: nat)
    requires i < |name| && i < |other| && name[i] != other[i]
    ensures !Fires(CommandRule(name, open, close), Command(other, a))
  {
    var x := Command(other, a);
    assert x[i] == other[i];
    assert (name + "{")[i] == name[i];
  }

  /** A pass that does not own the command copies it. */
  lemma OtherCommandCopied(name: string, rule: Rule, a: string)
    requires LeadsWith(rule, '\\')
    requires name != []
    requires !Fires(rule, Command(name, a))
    requires '\\' !in name[1..] && '\\' !in a
    ensures GlobalReplace(Command(name, a), rule) == Command(name, a)
  {
    var x := Command(name, a);
    assert x == [x[0]] + x[1..];
    assert x[1..] == name[1..] + "{" + a + "}";
    assert '\\' !in x[1..];
    CopiesTextWithoutLead(x[1..], [], rule, '\\');
    assert x[1..] + [] == x[1..];
    assert GlobalReplace([], rule) == [];
    assert Quiet(rule, x, 1);
    CopiesQuietPrefix([x[0]], x[1..], rule);
  }

  /** A command is replaced by its own pass. */
  lemma OwnCommand(name: string, open: string, close: string, a: string)
    requires |a| > 0 && '}' !in a
    ensures GlobalReplace(Command(name, a), CommandRule(name, open, close)) == open + a + close
  {
    CommandReplaced(name, open, close, a, []);
    assert Command(name, a) + [] == Command(name, a);
    assert GlobalReplace([], CommandRule(name, open, close)) == [];
    assert open + a + close + [] == open + a + close;
  }

  /** Each heading command becomes its own heading level; the three passes do not interfere. */
  lemma HeadingLevels(a: string)
    requires |a| > 0 && '}' !in a && '\\' !in a
    ensures Headings(Command("\\section", a)) == "<h2>" + a + "</h2>"
    ensures Headings(Command("\\subsection", a)) == "<h3>" + a + "</h3>"
    ensures Headings(Command("\\subsubsection", a)) == "<h4>" + a + "</h4>"
  {
    SectionLevel(a);
    SubsectionLevel(a);
    SubsubsectionLevel(a);
  }

  lemma SectionLevel(a: string)
    requires |a| > 0 && '}' !in a && '\\' !in a
    ensures Headings(Command("\\section", a)) == "<h2>" + a + "</h2>"
  {
    OwnCommand("\\section", "<h2>", "</h2>", a);
    HeadingOutputKept("<h2>" + a + "</h2>");
  }

  lemma SubsectionLevel(a: string)
    requires |a| > 0 && '}' !in a && '\\' !in a
    ensures Headings(Command("\\subsection", a)) == "<h3>" + a + "</h3>"
  {
    SectionSkipsDeeper(a);
    OwnCommand("\\subsection", "<h3>", "</h3>", a);
    HeadingOutputKept("<h3>" + a + "</h3>");
  }

  lemma SubsubsectionLevel(a: string)
    requires |a| > 0 && '}' !in a && '\\' !in a
    ensures Headings(Command("\\subsubsection", a)) == "<h4>" + a + "</h4>"
  {
    SectionSkipsDeeper(a);
    SubsectionSkipsDeeper(a);
    OwnCommand("\\subsubsection", "<h4>", "</h4>", a);
  }

  lemma SectionSkipsDeeper(a: string)
    requires '\\' !in a
    ensures GlobalReplace(Command("\\subsection", a), SECTION) == Command("\\subsection", a)
    ensures GlobalReplace(Command("\\subsubsection", a), SECTION) == Command("\\subsubsection", a)
  {
    CommandLeadsWithBackslash("\\section", "<h2>", "</h2>");
    OtherCommandSilent("\\section", "<h2>", "</h2>", "\\subsection", a, 2);
    OtherCommandSilent("\\section", "<h2>", "</h2>", "\\subsubsection", a, 2);
    OtherCommandCopied("\\subsection", SECTION, a);
    OtherCommandCopied("\\subsubsection", SECTION, a);
  }

  lemma SubsectionSkipsDeeper(a: string)
    requires '\\' !in a
    ensures GlobalReplace(Command("\\subsubsection", a), SUBSECTION) == Command("\\subsubsection", a)
  {
    CommandLeadsWithBackslash("\\subsection", "<h3>", "</h3>");
    OtherCommandSilent("\\subsection", "<h3>", "</h3>", "\\subsubsection", a, 5);
    OtherCommandCopied("\\subsubsection", SUBSECTION, a);
  }

  lemma HeadingOutputKept(h: string)
    requires '\\' !in h
    ensures GlobalReplace(h, SUBSECTION) == h && GlobalReplace(h, SUBSUBSECTION) == h
  {
    CommandLeadsWithBackslash("\\subsection", "<h3>", "</h3>");
    CommandLeadsWithBackslash("\\subsubsection", "<h4>", "</h4>");
    assert h + [] == h;
    CopiesTextWithoutLead(h, [], SUBSECTION, '\\');
    CopiesTextWithoutLead(h, [], SUBSUBSECTION, '\\');
    assert GlobalReplace([], SUBSECTION) == [] && GlobalReplace([], SUBSUBSECTION) == [];
  }

  /** Metadata is the argument of the first place the command matches, anywhere in the input. */
  lemma MetadataFirstMatch(latex: string, name: string, p: nat, a: string)
    requires p < |latex| && CommandShape(latex[p..], name, a)
    requires forall q :: 0 <= q < p ==> CommandArg(latex[q..], name).None?
    ensures Metadata(latex, name) == Some(a)
  {
    var r := FirstCommandAt(latex, name, 0);
    assert r.Some?;
    assert r.value == p;
  }

  /** Metadata is absent exactly when the command matches nowhere. */
  lemma MetadataAbsent(latex: string, name: string)
    ensures Metadata(latex, name).None? <==> forall p, a :: 0 <= p < |latex| ==> !CommandShape(latex[p..], name, a)
  {
    if Metadata(latex, name).None? {
      forall p, a | 0 <= p < |latex|
        ensures !CommandShape(latex[p..], name, a)
      {
        assert CommandArg(latex[p..], name).None?;
      }
    }
  }
}
